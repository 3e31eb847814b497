/**
 The substitution engine of the Mozart++ `format` header (namespace `mpp_impl`).

 A template is scanned for the literal two-character placeholder `{}` (the
 regular expression `\{\}`); each argument, left to right, replaces the
 leftmost placeholder of the WHOLE current string, and the first argument that
 finds none stops the run, silently dropping the arguments after it.
 */
module MppImpl {

  datatype Option<T> = None | Some(value: T)

  /** The match a callback receives: where the placeholder starts and how long it is. */
  datatype Match = Match(position: nat, length: nat)

  /** An argument of `format`, by the rendering rule its C++ type selects:
      a `char`, a `char[N]` buffer, or any other type, which goes to the
      external stringification of the library core. */
  datatype Arg<V> = CharArg(c: char) | CStrArg(buffer: seq<char>) | OtherArg(value: V)

  // ---------------------------------------------------------------------------
  // The placeholder grammar: the regular expression `\{\}`
  // ---------------------------------------------------------------------------

  /** Length of the only placeholder the engine recognises. */
  const PlaceholderLength: nat := 2

  /** A placeholder `{}` starts at index `i` of `s`. */
  predicate PlaceholderAt(s: string, i: int)
  {
    0 <= i && i + 1 < |s| && s[i] == '{' && s[i + 1] == '}'
  }

  /** `s` contains at least one placeholder. */
  predicate HasPlaceholder(s: string)
  {
    exists i :: 0 <= i < |s| && PlaceholderAt(s, i)
  }

  /** The first placeholder at or after index `k`, if any. */
  function FindFrom(s: string, k: nat): (r: Option<nat>)
    ensures r.Some? ==> k <= r.value && PlaceholderAt(s, r.value)
    ensures r.Some? ==> forall j :: k <= j < r.value ==> !PlaceholderAt(s, j)
    ensures r.None? ==> forall j :: k <= j ==> !PlaceholderAt(s, j)
    decreases |s| - k
  {
    if k + 1 >= |s| then None
    else if s[k] == '{' && s[k + 1] == '}' then Some(k)
    else FindFrom(s, k + 1)
  }

  /** The leftmost match of `\{\}` in the whole of `s`, as the first result
      of a regex iterator started at `s.cbegin()`. */
  function FindPlaceholder(s: string): (r: Option<nat>)
    ensures r.Some? ==> PlaceholderAt(s, r.value)
    ensures r.Some? ==> forall j :: 0 <= j < r.value ==> !PlaceholderAt(s, j)
    ensures r.None? <==> !HasPlaceholder(s)
  {
    FindFrom(s, 0)
  }

  // ---------------------------------------------------------------------------
  // One substitution step
  // ---------------------------------------------------------------------------

  /** try_format_partially specialised to the regex `\{\}`. The by-reference
      `text` comes in as `text` and goes out as `result`. With no placeholder
      the text is left as it is and the answer is false; otherwise the
      leftmost placeholder is replaced by what the callback returns for it. */
  method TryFormatPartially(text: string, f: Match -> string) returns (matched: bool, result: string)
    ensures matched <==> HasPlaceholder(text)
    ensures !matched ==> result == text
    ensures matched ==>
      var i := FindPlaceholder(text).value;
      && PlaceholderAt(text, i)
      && (forall j :: 0 <= j < i ==> !PlaceholderAt(text, j))
      && result == text[..i] + f(Match(i, PlaceholderLength)) + text[i + PlaceholderLength..]
      && |result| == |text| - PlaceholderLength + |f(Match(i, PlaceholderLength))|
  {
    var found := FindPlaceholder(text);
    if found.Some? {
      var start := found.value;
      var s: string := [];
      s := s + text[..start];
      s := s + f(Match(start, PlaceholderLength));
      s := s + text[start + PlaceholderLength..];
      matched, result := true, s;
    } else {
      matched, result := false, text;
    }
  }

  // ---------------------------------------------------------------------------
  // Rendering one argument
  // ---------------------------------------------------------------------------

  /** `std::string(str)` for a character buffer: its characters up to the
      first NUL, or the whole buffer when it holds none. */
  function CStr(buffer: seq<char>): (r: string)
    ensures |r| <= |buffer| && r == buffer[..|r|]
    ensures forall k :: 0 <= k < |r| ==> r[k] != '\0'
    ensures |r| < |buffer| ==> buffer[|r|] == '\0'
  {
    if |buffer| == 0 || buffer[0] == '\0' then []
    else [buffer[0]] + CStr(buffer[1..])
  }

  /** format_value and the three cases of format_value_helper: a character
      renders as itself, a buffer as its C string, anything else through the
      library's external `to_string`, given here as `toText`. */
  function FormatValue<V>(t: Arg<V>, toText: V -> string): (r: string)
    ensures t.CharArg? ==> |r| == 1 && r[0] == t.c
    ensures t.CStrArg? ==>
      && |r| <= |t.buffer| && r == t.buffer[..|r|]
      && (forall k :: 0 <= k < |r| ==> r[k] != '\0')
      && (|r| < |t.buffer| ==> t.buffer[|r|] == '\0')
    ensures t.OtherArg? ==> r == toText(t.value)
  {
    match t
    case CharArg(c) => [c]
    case CStrArg(buffer) => CStr(buffer)
    case OtherArg(v) => toText(v)
  }

  // ---------------------------------------------------------------------------
  // The driver, as values
  // ---------------------------------------------------------------------------

  /** One argument against the current text: the text with its leftmost
      placeholder replaced by the rendered argument, or None without one. */
  function Step<V>(s: string, t: Arg<V>, toText: V -> string): (r: Option<string>)
    ensures r.Some? <==> HasPlaceholder(s)
    ensures r.Some? ==> |r.value| == |s| - PlaceholderLength + |FormatValue(t, toText)|
  {
    match FindPlaceholder(s)
    case None => None
    case Some(i) => Some(s[..i] + FormatValue(t, toText) + s[i + PlaceholderLength..])
  }

  /** The text after feeding `args` in order, stopping at the first argument
      that finds no placeholder. A template without `{}` is returned as it
      is; a run that stopped before the last argument leaves no `{}`. */
  function Formatted<V>(s: string, args: seq<Arg<V>>, toText: V -> string): (r: string)
    ensures !HasPlaceholder(s) ==> r == s
    ensures Consumed(s, args, toText) < |args| ==> !HasPlaceholder(r)
    decreases |args|
  {
    if |args| == 0 then s
    else match Step(s, args[0], toText)
      case None => s
      case Some(next) => Formatted(next, args[1..], toText)
  }

  /** How many of `args` were substituted before the run stopped. */
  function Consumed<V>(s: string, args: seq<Arg<V>>, toText: V -> string): (n: nat)
    ensures n <= |args|
    decreases |args|
  {
    if |args| == 0 then 0
    else match Step(s, args[0], toText)
      case None => 0
      case Some(next) => 1 + Consumed(next, args[1..], toText)
  }

  // ---------------------------------------------------------------------------
  // The driver, as the header writes it
  // ---------------------------------------------------------------------------

  /** The single-argument `mpp_impl::format`: one substitution with the
      rendering of `t`, reporting whether a placeholder was found. */
  method FormatOne<V>(s: string, t: Arg<V>, toText: V -> string) returns (matched: bool, result: string)
    ensures matched <==> HasPlaceholder(s)
    ensures !matched ==> result == s
    ensures matched ==> Step(s, t, toText) == Some(result)
  {
    matched, result := TryFormatPartially(s, m => FormatValue(t, toText));
  }

  /** The variadic `mpp_impl::format`: substitute the head, return at once
      when it found no placeholder, otherwise go on with the rest. */
  method FormatArgs<V>(s: string, args: seq<Arg<V>>, toText: V -> string) returns (result: string)
    requires |args| >= 1
    ensures result == Formatted(s, args, toText)
    decreases |args|
  {
    var matched, next := FormatOne(s, args[0], toText);
    if !matched {
      return s;
    }
    if |args| == 1 {
      return next;
    }
    result := FormatArgs(next, args[1..], toText);
  }
}
