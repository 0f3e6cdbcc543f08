/**
 * The three ways a resolved template takes parameters: every `%` replaced by
 * one value, `%` placeholders filled from a list, and `:name` tokens filled
 * from a dictionary.
 */
module Substitution {
  import opened Text

  // ---------------------------------------------------------------------------
  // Single value: `string.replacingOccurrences(of: "%", with: replace)`

  /** Every `%` of the template becomes `replace`; nothing else changes. */
  function Single(template: string, replace: string): (r: string)
    ensures r == Join(Split(template, '%'), replace)
    ensures '%' !in replace ==> '%' !in r
  {
    ReplaceCharIsJoin(template, '%', replace);
    ReplaceCharRemoves(template, '%', replace);
    ReplaceAll(template, "%", replace)
  }

  // ---------------------------------------------------------------------------
  // Positional list, as written

  /** How many values the positional loop consumes when the template has
      `f` fragments (`f - 1` placeholders) and `v` values are supplied: the
      guard compares the value index with the shrinking fragment array, so
      this is min(v, (f - 1) / 2 + 1) and not min(v, f - 1). */
  function Consumed(f: nat, v: nat): (k: nat)
    requires f >= 1
    ensures k <= v && k <= f && k <= (f - 1) / 2 + 1
    ensures k == v || k == (f - 1) / 2 + 1
  {
    if v <= (f - 1) / 2 then v else (f - 1) / 2 + 1
  }

  /** One more turn of the loop consumes a fragment exactly when the index is
      still below the number of fragments left, and then the index equals the
      number consumed so far. */
  lemma ConsumedStep(f: nat, i: nat)
    requires f >= 1
    ensures i < f - Consumed(f, i) ==> Consumed(f, i) == i && Consumed(f, i + 1) == i + 1
    ensures !(i < f - Consumed(f, i)) ==> Consumed(f, i + 1) == Consumed(f, i)
  {
  }

  /** The text accumulated after `k` values were consumed: the first value
      follows fragment 0 directly, every later one is followed by a space. */
  function Emitted(frags: seq<string>, values: seq<string>, k: nat): string
    requires k <= |frags| && k <= |values|
  {
    if k == 0 then ""
    else if k == 1 then frags[0] + values[0]
    else Emitted(frags, values, k - 1) + frags[k - 1] + values[k - 1] + " "
  }

  /** The result of `localize(key:values:)` on a resolved template: the pieces
      emitted by the loop, then the unconsumed fragments with no separator,
      then one pass that turns each `"  "` into `" "`. */
  function Spliced(template: string, values: seq<string>): string
  {
    var frags := Split(template, '%');
    var k := Consumed(|frags|, |values|);
    ReplaceAll(Emitted(frags, values, k) + Join(frags[k..], ""), "  ", " ")
  }

  /** The loop of `localize(key:values:)`, removing fragments from the front of
      `remaining` and accumulating into `s`. */
  method Positional(template: string, values: seq<string>) returns (r: string)
    ensures r == Spliced(template, values)
  {
    var frags := Split(template, '%');
    var remaining := frags;
    var s := "";
    var index := 0;
    while index < |values|
      invariant 0 <= index <= |values|
      invariant Consumed(|frags|, index) + |remaining| == |frags|
      invariant remaining == frags[Consumed(|frags|, index)..]
      invariant s == Emitted(frags, values, Consumed(|frags|, index))
    {
      ConsumedStep(|frags|, index);
      if index < |remaining| {
        var piece := remaining[0];
        remaining := remaining[1..];
        s := if index == 0 then piece + values[index] else s + piece + values[index] + " ";
      }
      index := index + 1;
    }
    s := s + Join(remaining, "");
    r := ReplaceAll(s, "  ", " ");
  }

  /** The emitted text reads only the first `k` values. */
  lemma {:induction false} EmittedPrefix(frags: seq<string>, values: seq<string>, k: nat, n: nat)
    requires k <= n <= |values| && k <= |frags|
    ensures Emitted(frags, values, k) == Emitted(frags, values[..n], k)
  {
    if k > 1 {
      EmittedPrefix(frags, values, k - 1, n);
    }
  }

  /** Values past the consumed ones have no effect on the result: at most
      min(|values|, N / 2 + 1) of them are ever used for N placeholders. */
  lemma SplicedUsesPrefix(template: string, values: seq<string>)
    ensures var f := |Split(template, '%')|;
      Spliced(template, values) == Spliced(template, values[..Consumed(f, |values|)])
  {
    var frags := Split(template, '%');
    var k := Consumed(|frags|, |values|);
    assert Consumed(|frags|, k) == k;
    EmittedPrefix(frags, values, k, k);
  }

  // ---------------------------------------------------------------------------
  // Named dictionary: one `replacingOccurrences(of: ":" + name, with: value)`
  // per pair, in the dictionary's iteration order

  function Named(template: string, pairs: seq<(string, string)>): string
    decreases |pairs|
  {
    if pairs == [] then template
    else Named(ReplaceAll(template, [':'] + pairs[0].0, pairs[0].1), pairs[1..])
  }

  /** The loop of `localize(key:dictionary:)`, reassigning `s` once per pair. */
  method ReplaceNamed(template: string, pairs: seq<(string, string)>) returns (r: string)
    ensures r == Named(template, pairs)
  {
    r := template;
    var i := 0;
    while i < |pairs|
      invariant 0 <= i <= |pairs|
      invariant Named(template, pairs) == Named(r, pairs[i..])
    {
      var (name, value) := pairs[i];
      assert pairs[i..][1..] == pairs[i + 1..];
      r := ReplaceAll(r, [':'] + name, value);
      i := i + 1;
    }
  }

  /** A template with no `:` passes through every pair unchanged. */
  lemma {:induction false} NamedWithoutColon(template: string, pairs: seq<(string, string)>)
    requires ':' !in template
    ensures Named(template, pairs) == template
    decreases |pairs|
  {
    if pairs != [] {
      var pat := [':'] + pairs[0].0;
      NoHeadNoInfix(template, pat);
      ReplaceAbsent(template, pat, pairs[0].1);
      NamedWithoutColon(template, pairs[1..]);
    }
  }

  // ---------------------------------------------------------------------------
  // Positional list, as evidently intended

  /** Fragment i followed by value i, for as many values as there are
      placeholders; a placeholder without a value contributes nothing. */
  function Interleave(frags: seq<string>, values: seq<string>): string
    requires |frags| >= 1
    decreases |frags|
  {
    if |frags| == 1 then frags[0]
    else if values == [] then frags[0] + Interleave(frags[1..], [])
    else frags[0] + values[0] + Interleave(frags[1..], values[1..])
  }

  /** The splice `localize(key:values:)` evidently means: placeholder i takes
      value i, missing values leave nothing behind and excess values are
      dropped, so no `%` survives unless a value brings one. */
  function PositionalIntended(template: string, values: seq<string>): (r: string)
    ensures (forall v :: v in values ==> '%' !in v) ==> '%' !in r
  {
    var frags := Split(template, '%');
    InterleaveFree(frags, values, '%');
    Interleave(frags, values)
  }

  lemma {:induction false} InterleaveFree(frags: seq<string>, values: seq<string>, c: char)
    requires |frags| >= 1
    requires forall i :: 0 <= i < |frags| ==> c !in frags[i]
    ensures (forall v :: v in values ==> c !in v) ==> c !in Interleave(frags, values)
    decreases |frags|
  {
    if |frags| > 1 {
      InterleaveFree(frags[1..], if values == [] then [] else values[1..], c);
    }
  }

  lemma {:induction false} InterleaveUniform(frags: seq<string>, values: seq<string>, v: string)
    requires |frags| >= 1 && |values| >= |frags| - 1
    requires forall i :: 0 <= i < |values| ==> values[i] == v
    ensures Interleave(frags, values) == Join(frags, v)
    decreases |frags|
  {
    if |frags| > 1 {
      InterleaveUniform(frags[1..], values[1..], v);
    }
  }

  /** Supplying the same value for every placeholder is the single-value
      substitution. */
  lemma IntendedAgreesWithSingle(template: string, values: seq<string>, v: string)
    requires |values| >= |Split(template, '%')| - 1
    requires forall i :: 0 <= i < |values| ==> values[i] == v
    ensures PositionalIntended(template, values) == Single(template, v)
  {
    InterleaveUniform(Split(template, '%'), values, v);
  }

  // ---------------------------------------------------------------------------
  // Worked examples

  lemma SplitPercentDash()
    ensures Split("%-%", '%') == ["", "-", ""]
  {
    assert "%-%" == "" + ['%'] + "-%";
    assert "-%" == "-" + ['%'] + "";
    SplitDecomposes("-", "", '%');
    SplitDecomposes("", "-%", '%');
  }

  lemma SplitThreePlaceholders()
    ensures Split("% % %", '%') == ["", " ", " ", ""]
  {
    assert " %" == " " + ['%'] + "";
    assert " % %" == " " + ['%'] + " %";
    assert "% % %" == "" + ['%'] + " % %";
    SplitDecomposes(" ", "", '%');
    SplitDecomposes(" ", " %", '%');
    SplitDecomposes("", " % %", '%');
  }

  /** `"%-%"` with values `a`, `b` gives `"a-b "`, with a trailing space. */
  lemma SplicedTrailingSpace()
    ensures Spliced("%-%", ["a", "b"]) == "a-b "
  {
    SplitPercentDash();
    var frags := ["", "-", ""];
    assert Consumed(3, 2) == 2;
    assert Emitted(frags, ["a", "b"], 2) == "a-b ";
    assert frags[2..] == [""];
    assert "a-b " + Join([""], "") == "a-b ";
    assert ReplaceAll("a-b ", "  ", " ") == "a-b ";
  }

  /** `"% % %"` with values `a`, `b`, `c` drops `c`: the loop stops consuming once
      the index reaches the length of the shrinking fragment array. */
  lemma SplicedDropsValue()
    ensures Spliced("% % %", ["a", "b", "c"]) == "a b "
  {
    SplitThreePlaceholders();
    var frags := ["", " ", " ", ""];
    assert Consumed(4, 3) == 2;
    assert Emitted(frags, ["a", "b", "c"], 2) == "a b ";
    assert frags[2..] == [" ", ""];
    assert "a b " + Join([" ", ""], "") == "a b  ";
    assert ReplaceAll("a b  ", "  ", " ") == "a b ";
  }

  /** A template with no `%` still consumes one value: index 0 is below the
      one-fragment array, so `"Hello"` with value `x` gives `"Hellox"`. */
  lemma SplicedWithoutPlaceholder()
    ensures Spliced("Hello", ["x"]) == "Hellox"
  {
    SplitWithout("Hello", '%');
    assert Consumed(1, 1) == 1;
    assert Emitted(["Hello"], ["x"], 1) == "Hellox";
    assert ["Hello"][1..] == [];
    assert "Hellox" + Join([], "") == "Hellox";
    ReplaceSkipsPrefix("Hellox", "", "  ", " ");
    assert "Hellox" + "" == "Hellox";
  }

  lemma IntendedExamples()
    ensures PositionalIntended("%-%", ["a", "b"]) == "a-b"
    ensures PositionalIntended("% % %", ["a", "b", "c"]) == "a b c"
    ensures PositionalIntended("Hello", ["x"]) == "Hello"
  {
    SplitPercentDash();
    SplitThreePlaceholders();
    SplitWithout("Hello", '%');
  }

  /** `"Hi :name"` with `name` = `Sam` gives `"Hi Sam"`. */
  lemma NamedExample()
    ensures Named("Hi :name", [("name", "Sam")]) == "Hi Sam"
  {
    assert "Hi :name" == "Hi " + ":name";
    ReplaceSkipsPrefix("Hi ", ":name", ":name", "Sam");
    assert ReplaceAll(":name", ":name", "Sam") == "Sam" + ReplaceAll("", ":name", "Sam");
  }
}
