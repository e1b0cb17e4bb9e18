/** Optional values and Python-style exceptional outcomes. */
module Wrappers {

  datatype Option<T> = None | Some(value: T)

  /** The exceptions the modelled code lets escape. */
  datatype Exception =
    | DoesNotExist      // `ObjectDoesNotExist` and `Model.DoesNotExist`
    | AttributeError    // an attribute read on `None`
    | NegativeIndexing  // a queryset sliced with a negative bound
    | NameError         // a read of an undefined local name
    | KeyError          // a missing dictionary key
    | TypeError         // a subscript of `None`

  /** What a Python call does: return a value or raise. */
  datatype Outcome<T> = Returned(value: T) | Raised(error: Exception)
}
