/**
 Properties of the Mozart++ substitution engine: how the renderer treats each
 kind of argument, when the driver stops and what it drops, how the length of
 the text evolves, the worked examples of the library's test, and how the
 engine's rescan-from-the-start relates to a shrinking-cursor reading.
 */
module FormatProperties {
  import opened MppImpl

  // ---------------------------------------------------------------------------
  // The renderer
  // ---------------------------------------------------------------------------

  /** The C string of a buffer is determined by its first NUL: when `n` is the
      index of the first NUL, the rendering is the buffer's first `n` characters. */
  lemma CStrStopsAtFirstNul(buffer: seq<char>, n: nat)
    requires n < |buffer| && buffer[n] == '\0'
    requires forall k :: 0 <= k < n ==> buffer[k] != '\0'
    ensures CStr(buffer) == buffer[..n]
  {
  }

  /** A buffer without any NUL renders whole. */
  lemma CStrWithoutNul(buffer: seq<char>)
    requires forall k :: 0 <= k < |buffer| ==> buffer[k] != '\0'
    ensures CStr(buffer) == buffer
  {
  }

  // ---------------------------------------------------------------------------
  // The driver: termination policy
  // ---------------------------------------------------------------------------

  /** A template without `{}` comes back unchanged, whatever the arguments,
      and none of them is consumed. */
  lemma NoPlaceholderIsIdentity<V>(s: string, args: seq<Arg<V>>, toText: V -> string)
    requires !HasPlaceholder(s)
    ensures Formatted(s, args, toText) == s
    ensures Consumed(s, args, toText) == 0
  {
  }

  /** Once an argument finds no placeholder, the text is final: it holds no
      placeholder, and any further arguments change nothing. */
  lemma {:induction false} StopDropsRest<V>(s: string, args: seq<Arg<V>>, extra: seq<Arg<V>>, toText: V -> string)
    requires Consumed(s, args, toText) < |args|
    ensures !HasPlaceholder(Formatted(s, args, toText))
    ensures Formatted(s, args + extra, toText) == Formatted(s, args, toText)
    ensures Consumed(s, args + extra, toText) == Consumed(s, args, toText)
    decreases |args|
  {
    assert (args + extra)[0] == args[0];
    assert (args + extra)[1..] == args[1..] + extra;
    match Step(s, args[0], toText)
    case None =>
    case Some(next) =>
      StopDropsRest(next, args[1..], extra, toText);
  }

  /** Only the consumed prefix of the arguments matters. */
  lemma {:induction false} OnlyConsumedMatter<V>(s: string, args: seq<Arg<V>>, toText: V -> string)
    ensures
      var k := Consumed(s, args, toText);
      && Formatted(s, args[..k], toText) == Formatted(s, args, toText)
      && Consumed(s, args[..k], toText) == k
    decreases |args|
  {
    if |args| > 0 {
      match Step(s, args[0], toText)
      case None =>
      case Some(next) =>
        var k := Consumed(s, args, toText);
        OnlyConsumedMatter(next, args[1..], toText);
        assert args[..k][0] == args[0];
        assert args[..k][1..] == args[1..][..k - 1];
    }
  }

  /** When every argument of `a` found a placeholder, feeding `a + b` is
      feeding `a` and then `b` to the result. */
  lemma {:induction false} Compose<V>(s: string, a: seq<Arg<V>>, b: seq<Arg<V>>, toText: V -> string)
    requires Consumed(s, a, toText) == |a|
    ensures Formatted(s, a + b, toText) == Formatted(Formatted(s, a, toText), b, toText)
    ensures Consumed(s, a + b, toText) == |a| + Consumed(Formatted(s, a, toText), b, toText)
    decreases |a|
  {
    if |a| == 0 {
      assert a + b == b;
    } else {
      assert (a + b)[0] == a[0];
      assert (a + b)[1..] == a[1..] + b;
      match Step(s, a[0], toText)
      case Some(next) =>
        Compose(next, a[1..], b, toText);
    }
  }

  // ---------------------------------------------------------------------------
  // The driver: length of the result
  // ---------------------------------------------------------------------------

  /** The renderings of a sequence of arguments. */
  function Renders<V>(args: seq<Arg<V>>, toText: V -> string): (rs: seq<string>)
    ensures |rs| == |args|
    ensures forall k :: 0 <= k < |args| ==> rs[k] == FormatValue(args[k], toText)
  {
    seq(|args|, k requires 0 <= k < |args| => FormatValue(args[k], toText))
  }

  /** The summed length of some strings. */
  function TotalLength(rs: seq<string>): nat
  {
    if |rs| == 0 then 0 else |rs[0]| + TotalLength(rs[1..])
  }

  /** Every substitution removes the two characters of `{}` and inserts the
      rendering, so the final length is the template's, plus the renderings
      of the consumed arguments, minus two per consumed argument. */
  lemma {:induction false} FormattedLength<V>(s: string, args: seq<Arg<V>>, toText: V -> string)
    ensures
      var k := Consumed(s, args, toText);
      |Formatted(s, args, toText)| == |s| + TotalLength(Renders(args[..k], toText)) - PlaceholderLength * k
    decreases |args|
  {
    if |args| > 0 {
      match Step(s, args[0], toText)
      case None =>
        assert args[..0] == [];
      case Some(next) =>
        var k := Consumed(s, args, toText);
        FormattedLength(next, args[1..], toText);
        assert Renders(args[..k], toText)[1..] == Renders(args[1..][..k - 1], toText);
    }
  }

  // ---------------------------------------------------------------------------
  // The examples of the library's test
  // ---------------------------------------------------------------------------

  /** One argument against three placeholders: only the first is replaced,
      the other two stay as literal text. */
  lemma HelloExample<V>(v: V, toText: V -> string)
    ensures Formatted("hello {} {} {}", [OtherArg(v)], toText) == "hello " + toText(v) + " {} {}"
  {
  }

  /** The placeholder of the second example sits at index 8. */
  lemma FormatterTemplatePlaceholder()
    ensures FindPlaceholder("this is {} formatter") == Some(8)
  {
  }

  /** A string literal argument renders as its text, not as an address. */
  lemma FormatterExample<V>(toText: V -> string)
    ensures Formatted("this is {} formatter", [CStrArg("mpp\0")], toText) == "this is mpp formatter"
  {
    var s := "this is {} formatter";
    FormatterTemplatePlaceholder();
    assert CStr("mpp\0") == "mpp";
    assert s[..8] == "this is " && s[10..] == " formatter";
  }

  // ---------------------------------------------------------------------------
  // Rescanning from the start versus a shrinking cursor
  // ---------------------------------------------------------------------------

  /** A reading in which each argument replaces the first placeholder AFTER
      the previous substitution, so rendered text is never scanned again. */
  function CursorFormat(text: string, rs: seq<string>): string
    decreases |rs|
  {
    if |rs| == 0 then text
    else match FindPlaceholder(text)
      case None => text
      case Some(i) => text[..i] + rs[0] + CursorFormat(text[i + PlaceholderLength..], rs[1..])
  }

  /** A rendering that can neither hold a brace nor, being non-empty, join the
      texts around it into a new `{}`. */
  predicate Inert(r: string)
  {
    |r| > 0 && forall k :: 0 <= k < |r| ==> r[k] != '{' && r[k] != '}'
  }

  /** The leftmost placeholder is unique. */
  lemma FindIsLeftmost(s: string, i: nat)
    requires PlaceholderAt(s, i)
    requires forall j :: 0 <= j < i ==> !PlaceholderAt(s, j)
    ensures FindPlaceholder(s) == Some(i)
  {
  }

  /** Joining two texts without placeholders makes none, unless the first
      ends with `{` and the second starts with `}`. */
  lemma NoPlaceholderConcat(a: string, b: string)
    requires !HasPlaceholder(a) && !HasPlaceholder(b)
    requires |a| == 0 || |b| == 0 || !(a[|a| - 1] == '{' && b[0] == '}')
    ensures !HasPlaceholder(a + b)
  {
    forall j | 0 <= j < |a + b| ensures !PlaceholderAt(a + b, j) {
      if j + 1 < |a| {
        assert !PlaceholderAt(a, j);
      } else if j >= |a| {
        assert !PlaceholderAt(b, j - |a|);
      }
    }
  }

  /** Behind a prefix that holds no placeholder and does not end with `{`,
      the leftmost placeholder is the leftmost one of the rest, shifted. */
  lemma ShiftFind(p: string, t: string)
    requires !HasPlaceholder(p) && (|p| == 0 || p[|p| - 1] != '{')
    ensures FindPlaceholder(p + t) == match FindPlaceholder(t)
                                      case None => None
                                      case Some(i) => Some(|p| + i)
  {
    forall j | 0 <= j < |p| ensures !PlaceholderAt(p + t, j) {
      if j + 1 < |p| {
        assert !PlaceholderAt(p, j);
      } else {
        assert (p + t)[j] == p[|p| - 1];
      }
    }
    forall j | |p| <= j < |p + t| ensures PlaceholderAt(p + t, j) <==> PlaceholderAt(t, j - |p|) {
    }
    match FindPlaceholder(t)
    case None =>
      forall j | 0 <= j < |p + t| ensures !PlaceholderAt(p + t, j) {
        if j >= |p| {
          assert !PlaceholderAt(t, j - |p|);
        }
      }
    case Some(i) =>
      FindIsLeftmost(p + t, |p| + i);
  }

  /** One substitution behind an inert prefix: the text splits into a longer
      inert prefix and the rest of the template after the placeholder. */
  lemma InertStep(p: string, t: string, i: nat, r: string)
    requires !HasPlaceholder(p) && (|p| == 0 || p[|p| - 1] != '{')
    requires FindPlaceholder(t) == Some(i)
    requires Inert(r)
    ensures
      var p' := p + t[..i] + r;
      && !HasPlaceholder(p') && p'[|p'| - 1] != '{'
      && (p + t)[..|p| + i] + r + (p + t)[|p| + i + PlaceholderLength..] == p' + t[i + PlaceholderLength..]
  {
    var head := t[..i];
    assert (p + t)[..|p| + i] == p + head;
    assert (p + t)[|p| + i + PlaceholderLength..] == t[i + PlaceholderLength..];
    forall j | 0 <= j < |head| ensures !PlaceholderAt(head, j) {
      assert !PlaceholderAt(t, j);
    }
    NoPlaceholderConcat(p, head);
    assert !HasPlaceholder(r);
    NoPlaceholderConcat(p + head, r);
  }

  /** Concatenation regrouped; kept apart so that the induction step of
      AgreementFrom does not have to prove it among its other facts. */
  lemma Regroup(a: string, b: string, c: string, d: string)
    ensures a + b + c + d == a + (b + c + d)
  {
  }

  /** The step the engine takes on a text behind an inert prefix. */
  lemma StepBehindInert<V>(p: string, t: string, i: nat, a: Arg<V>, toText: V -> string)
    requires !HasPlaceholder(p) && (|p| == 0 || p[|p| - 1] != '{')
    requires FindPlaceholder(t) == Some(i)
    requires Inert(FormatValue(a, toText))
    ensures Step(p + t, a, toText) == Some(p + t[..i] + FormatValue(a, toText) + t[i + PlaceholderLength..])
  {
    ShiftFind(p, t);
    InertStep(p, t, i, FormatValue(a, toText));
  }

  /** The agreement of the two readings behind an inert prefix. */
  lemma {:induction false} AgreementFrom<V>(p: string, t: string, args: seq<Arg<V>>, toText: V -> string)
    requires !HasPlaceholder(p) && (|p| == 0 || p[|p| - 1] != '{')
    requires forall k :: 0 <= k < |args| ==> Inert(FormatValue(args[k], toText))
    ensures Formatted(p + t, args, toText) == p + CursorFormat(t, Renders(args, toText))
    decreases |args|
  {
    if |args| > 0 {
      match FindPlaceholder(t)
      case None =>
        ShiftFind(p, t);
      case Some(i) =>
        var r := FormatValue(args[0], toText);
        var p' := p + t[..i] + r;
        var rest := t[i + PlaceholderLength..];
        var rs := Renders(args, toText);
        var rs' := Renders(args[1..], toText);
        assert Step(p + t, args[0], toText) == Some(p' + rest) by {
          StepBehindInert(p, t, i, args[0], toText);
          InertStep(p, t, i, r);
        }
        assert Formatted(p + t, args, toText) == Formatted(p' + rest, args[1..], toText);
        assert !HasPlaceholder(p') && p'[|p'| - 1] != '{' by {
          InertStep(p, t, i, r);
        }
        assert CursorFormat(t, rs) == t[..i] + r + CursorFormat(rest, rs') by {
          assert rs' == rs[1..];
        }
        AgreementFrom(p', rest, args[1..], toText);
        Regroup(p, t[..i], r, CursorFormat(rest, rs'));
    }
  }

  /** When no rendering is empty or holds a brace, rescanning the whole text
      from the start substitutes exactly as a shrinking cursor would: each
      argument fills the next placeholder of the template, left to right. */
  lemma CursorAgreement<V>(text: string, args: seq<Arg<V>>, toText: V -> string)
    requires forall k :: 0 <= k < |args| ==> Inert(FormatValue(args[k], toText))
    ensures Formatted(text, args, toText) == CursorFormat(text, Renders(args, toText))
  {
    AgreementFrom("", text, args, toText);
    assert "" + text == text;
  }

  /** A rendered `{}` is itself the target of the next argument, where a
      cursor would have filled the template's second placeholder. */
  lemma RenderedPlaceholderIsReused<V>(toText: V -> string)
    ensures Formatted("a{}b{}", [CStrArg("{}\0"), CharArg('x')], toText) == "axb{}"
    ensures CursorFormat("a{}b{}", ["{}", "x"]) == "a{}bx"
  {
    var s := "a{}b{}";
    assert FindFrom(s, 1) == Some(1);
    assert FindPlaceholder(s) == Some(1);
    assert CStr("{}\0") == "{}";
    assert s[..1] + "{}" + s[3..] == s;
    assert CursorFormat(s[3..], ["x"]) == "bx" by {
      assert FindFrom("b{}", 1) == Some(1);
    }
  }

  /** An empty rendering can join the braces around a placeholder into a
      new one: one placeholder consumes two arguments. */
  lemma EmptyRenderJoinsBraces<V>(toText: V -> string)
    ensures Formatted("{{}}", [CStrArg("\0"), CharArg('x')], toText) == "x"
    ensures Consumed("{{}}", [CStrArg("\0"), CharArg('x')], toText) == 2
    ensures CursorFormat("{{}}", ["", "x"]) == "{}"
  {
  }
}
