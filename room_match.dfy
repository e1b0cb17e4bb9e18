/** The string helpers of the matching page's script
    (yurutomo/chatrooms/static/chatrooms/js/room_match.js): the CSRF cookie
    parser run on page creation, topic-name truncation, the matching button's
    disabled state and the length check before a topic is created. Strings
    are sequences of characters, so a length counts characters. */
module RoomMatch {
  import opened Wrappers
  import opened Models
  import PollViews

  // ------------------------------------------------------------------ split

  /** `s.split(sep)` for a one-character separator: the pieces between
      separators, always at least one. */
  function Split(s: string, sep: char): (parts: seq<string>)
    ensures |parts| >= 1
    ensures forall i | 0 <= i < |parts| :: sep !in parts[i]
    ensures Join(parts, sep) == s
    decreases |s|
  {
    if |s| == 0 then [""]
    else if s[0] == sep then
      var rest := Split(s[1..], sep);
      assert [""] + rest == [""] + rest[..1] + rest[1..];
      [""] + rest
    else
      var rest := Split(s[1..], sep);
      var parts := [[s[0]] + rest[0]] + rest[1..];
      assert parts[1..] == rest[1..];
      assert s == [s[0]] + s[1..];
      JoinHead(parts, sep, [s[0]], rest);
      parts
  }

  /** `parts.join(sep)`. */
  function Join(parts: seq<string>, sep: char): string
    requires |parts| >= 1
    decreases |parts|
  {
    if |parts| == 1 then parts[0] else parts[0] + [sep] + Join(parts[1..], sep)
  }

  /** Joining after gluing text onto the first piece is gluing it onto the
      join. */
  lemma JoinHead(parts: seq<string>, sep: char, head: string, rest: seq<string>)
    requires |rest| >= 1 && parts == [head + rest[0]] + rest[1..]
    ensures Join(parts, sep) == head + Join(rest, sep)
  {
    if |rest| > 1 {
      assert parts[1..] == rest[1..];
    }
  }

  /** Splitting undoes joining pieces that contain no separator. */
  lemma {:induction false} SplitJoin(parts: seq<string>, sep: char)
    requires |parts| >= 1
    requires forall i | 0 <= i < |parts| :: sep !in parts[i]
    ensures Split(Join(parts, sep), sep) == parts
    decreases |Join(parts, sep)|
  {
    var s := Join(parts, sep);
    if parts[0] == [] {
      if |parts| > 1 {
        assert s == [sep] + Join(parts[1..], sep);
        assert s[1..] == Join(parts[1..], sep);
        SplitJoin(parts[1..], sep);
        assert parts == [""] + parts[1..];
      }
    } else {
      var rest := [parts[0][1..]] + parts[1..];
      assert parts[0] == [parts[0][0]] + parts[0][1..];
      assert parts == [[parts[0][0]] + rest[0]] + rest[1..];
      JoinHead(parts, sep, [parts[0][0]], rest);
      assert s[1..] == Join(rest, sep);
      forall i | 0 <= i < |rest| ensures sep !in rest[i] {
        if i == 0 {
          assert forall c | c in parts[0][1..] :: c in parts[0];
        } else {
          assert rest[i] == parts[i];
        }
      }
      SplitJoin(rest, sep);
    }
  }

  // ------------------------------------------------------------------- trim

  /** A character `String.prototype.trim` removes: white space or a line
      terminator. */
  predicate IsJsWhitespace(c: char) {
    c == '\t' || c == '\n' || c == '\U{000B}' || c == '\U{000C}' || c == '\r' || c == ' '
    || c == '\U{00A0}' || c == '\U{1680}' || ('\U{2000}' <= c <= '\U{200A}')
    || c == '\U{2028}' || c == '\U{2029}' || c == '\U{202F}' || c == '\U{205F}'
    || c == '\U{3000}' || c == '\U{FEFF}'
  }

  /** Drop leading white space: what is left is a suffix that starts with
      no white space, and everything dropped was white space. */
  function TrimStart(s: string): (r: string)
    ensures |r| <= |s| && r == s[|s| - |r|..]
    ensures |r| == 0 || !IsJsWhitespace(r[0])
    ensures forall i | 0 <= i < |s| - |r| :: IsJsWhitespace(s[i])
    decreases |s|
  {
    if |s| > 0 && IsJsWhitespace(s[0]) then TrimStart(s[1..]) else s
  }

  /** Drop trailing white space: what is left is a prefix that ends with no
      white space, and everything dropped was white space. */
  function TrimEnd(s: string): (r: string)
    ensures |r| <= |s| && r == s[..|r|]
    ensures |r| == 0 || !IsJsWhitespace(r[|r| - 1])
    ensures forall i | |r| <= i < |s| :: IsJsWhitespace(s[i])
    decreases |s|
  {
    if |s| > 0 && IsJsWhitespace(s[|s| - 1]) then TrimEnd(s[..|s| - 1]) else s
  }

  /** `s.trim()`. */
  function Trim(s: string): string {
    TrimEnd(TrimStart(s))
  }

  /** The trimmed string is a piece of the input, begins and ends with no
      white space, and trimming it again changes nothing. */
  lemma TrimFacts(s: string)
    ensures var t := Trim(s);
            && (exists i, j | 0 <= i <= j <= |s| :: s[i..j] == t)
            && (|t| == 0 || (!IsJsWhitespace(t[0]) && !IsJsWhitespace(t[|t| - 1])))
            && Trim(t) == t
  {
    var a := TrimStart(s);
    var t := TrimEnd(a);
    var i := |s| - |a|;
    assert s[i..i + |t|] == a[..|t|];
    if |t| > 0 {
      assert t[0] == a[0];
      assert TrimStart(t) == t;
    }
  }

  // ---------------------------------------------------------------- cookies

  /** `cookie.substring(0, name.length + 1) === name + "="`: the entry begins
      with the name directly followed by `=`. */
  predicate NameMatches(entry: string, name: string)
    ensures NameMatches(entry, name) ==> |entry| >= |name| + 1
  {
    var n := if |entry| < |name| + 1 then |entry| else |name| + 1;
    entry[..n] == name + "="
  }

  /** A key that only starts with the name, with something other than `=`
      after it, does not match. */
  lemma PrefixKeyDoesNotMatch(name: string, more: string)
    requires |more| > 0 && more[0] != '='
    ensures !NameMatches(name + more, name)
  {
    assert (name + more)[|name|] == more[0];
    assert (name + "=")[|name|] == '=';
  }

  /** `decodeURIComponent(cookie.substring(name.length + 1))`: the decoded
      text after `name=`. */
  function EntryValue(entry: string, name: string, decode: string -> string): string
    requires NameMatches(entry, name)
  {
    decode(entry[|name| + 1..])
  }

  /** Every entry trimmed. */
  function TrimAll(entries: seq<string>): (r: seq<string>)
    ensures |r| == |entries| && forall i | 0 <= i < |entries| :: r[i] == Trim(entries[i])
  {
    seq(|entries|, i requires 0 <= i < |entries| => Trim(entries[i]))
  }

  /** Entry `i` is the first that matches. */
  predicate IsFirstMatch(entries: seq<string>, name: string, i: int) {
    && 0 <= i < |entries| && NameMatches(entries[i], name)
    && forall j | 0 <= j < i :: !NameMatches(entries[j], name)
  }

  /** The decoded value of the first (trimmed) entry that matches, if any.
      `decode` stands for `decodeURIComponent`. */
  function FirstMatch(entries: seq<string>, name: string, decode: string -> string): Option<string>
    decreases |entries|
  {
    if entries == [] then None
    else if NameMatches(entries[0], name) then Some(EntryValue(entries[0], name, decode))
    else FirstMatch(entries[1..], name, decode)
  }

  /** No answer exactly when no entry matches; otherwise the answer is the
      value of the first entry that matches. */
  lemma {:induction false} FirstMatchSpec(entries: seq<string>, name: string, decode: string -> string)
    ensures FirstMatch(entries, name, decode).None? <==> forall i | 0 <= i < |entries| :: !NameMatches(entries[i], name)
    ensures FirstMatch(entries, name, decode).Some? ==>
              exists i :: IsFirstMatch(entries, name, i) && FirstMatch(entries, name, decode).value == EntryValue(entries[i], name, decode)
    decreases |entries|
  {
    if entries != [] {
      if NameMatches(entries[0], name) {
        assert IsFirstMatch(entries, name, 0);
      } else {
        FirstMatchSpec(entries[1..], name, decode);
        assert forall i | 1 <= i < |entries| :: entries[1..][i - 1] == entries[i];
        var r := FirstMatch(entries[1..], name, decode);
        if r.Some? {
          var k :| IsFirstMatch(entries[1..], name, k) && r.value == EntryValue(entries[1..][k], name, decode);
          assert IsFirstMatch(entries, name, k + 1);
        }
      }
    }
  }

  /** `getCookie(name)` on the cookie string `cookie`: null when the string
      is empty; otherwise the first matching entry of its `;`-separated
      list. */
  function CookieValue(cookie: string, name: string, decode: string -> string): (r: Option<string>)
    ensures cookie == "" ==> r.None?
  {
    if cookie == "" then None else FirstMatch(TrimAll(Split(cookie, ';')), name, decode)
  }

  /** A cookie string built from `;`-free entries yields the first of those
      entries, trimmed, that carries the name. */
  lemma CookieOfEntries(parts: seq<string>, name: string, decode: string -> string)
    requires |parts| >= 1 && forall i | 0 <= i < |parts| :: ';' !in parts[i]
    requires Join(parts, ';') != ""
    ensures CookieValue(Join(parts, ';'), name, decode) == FirstMatch(TrimAll(parts), name, decode)
  {
    SplitJoin(parts, ';');
  }

  /** Entries after the first match are never looked at. */
  lemma {:induction false} LaterMatchesIgnored(entries: seq<string>, more: seq<string>, name: string, decode: string -> string)
    requires FirstMatch(entries, name, decode).Some?
    ensures FirstMatch(entries + more, name, decode) == FirstMatch(entries, name, decode)
    decreases |entries|
  {
    assert (entries + more)[0] == entries[0];
    if !NameMatches(entries[0], name) {
      assert (entries + more)[1..] == entries[1..] + more;
      LaterMatchesIgnored(entries[1..], more, name, decode);
    }
  }

  /** The `for` loop of `getCookie`, with its `break`. */
  method GetCookie(cookie: string, name: string, decode: string -> string) returns (cookieValue: Option<string>)
    ensures cookieValue == CookieValue(cookie, name, decode)
  {
    cookieValue := None;
    if cookie != "" {
      var cookies := Split(cookie, ';');
      ghost var trimmed := TrimAll(cookies);
      for i := 0 to |cookies|
        invariant FirstMatch(trimmed, name, decode) == FirstMatch(trimmed[i..], name, decode)
      {
        assert trimmed[i..][1..] == trimmed[i + 1..];
        var entry := Trim(cookies[i]);
        if NameMatches(entry, name) {
          cookieValue := Some(EntryValue(entry, name, decode));
          break;
        }
      }
    }
  }

  // ------------------------------------------------------------ topic names

  /** Longest name shown unshortened. */
  const ShownNameLength: nat := 30

  /** `cleanTopicName`: names of 31 characters or more are cut to 30 and
      get `...`. */
  function CleanTopicName(name: string): (r: string)
    ensures |name| <= ShownNameLength ==> r == name
    ensures |name| > ShownNameLength ==> r == name[..ShownNameLength] + "..."
    ensures |r| <= ShownNameLength + 3
  {
    if |name| >= ShownNameLength + 1 then name[..ShownNameLength] + "..." else name
  }

  /** Cleaning a cleaned name changes nothing. */
  lemma CleanTopicNameIdempotent(name: string)
    ensures CleanTopicName(CleanTopicName(name)) == CleanTopicName(name)
  {
    if |name| > ShownNameLength {
      var r := name[..ShownNameLength] + "...";
      assert r[..ShownNameLength] == name[..ShownNameLength];
    }
  }

  /** `btnDisable`: no topic chosen, or no positive group size. */
  function BtnDisable(topic: string, number: int): (b: bool)
    ensures !b ==> |topic| > 0 && number > 0
    ensures |topic| > 0 && number > 0 ==> !b
  {
    |topic| == 0 || number <= 0
  }

  /** A registration sent with the button enabled asks for a positive group
      size, so the view's polling never hits the negative-slice error for
      that user. */
  lemma EnabledButtonAvoidsSliceError(d: Db, u: UserId, topic: string, number: int, t: Time, now: Time)
    requires !BtnDisable(topic, number)
    requires PollViews.RegisterStep(d, u, Some(Condition(topic, number)), t).1 == PollViews.Registered(true)
    ensures PollViews.GetMatchRoomStep(PollViews.RegisterStep(d, u, Some(Condition(topic, number)), t).0, u, now).1
            != PollViews.SliceServerError
  {
  }

  /** The part of the page state the topic form works on. */
  class RoomMatchApp {
    var newTopic: string

    constructor (newTopic: string)
      ensures this.newTopic == newTopic
    {
      this.newTopic := newTopic;
    }

    /** `createTopic`: trim the typed name in place, then send it only when
        it has between 1 and 255 characters. Returns the name sent. */
    method CreateTopic() returns (sent: Option<string>)
      modifies this
      ensures newTopic == Trim(old(newTopic))
      ensures sent.Some? <==> 0 < |newTopic| <= GameNameMaxLength
      ensures sent.Some? ==> sent.value == newTopic && ValidGameName(sent.value)
    {
      newTopic := Trim(newTopic);
      if |newTopic| <= 0 || |newTopic| > 255 {
        return None;
      }
      sent := Some(newTopic);
    }
  }
}
