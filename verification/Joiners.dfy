/** The two ways the extension builders join option names (`x509/extension.rs`): a fold over an
  * iterator, and a series of `append` calls with a `first` flag. */
module Joiners {

  /** `join`: every element but the first is preceded by the separator. */
  function JoinFrom(elements: seq<string>, idx: nat, acc: string): string {
    if elements == [] then acc
    else JoinFrom(elements[1..], idx + 1, (if idx > 0 then acc + "," else acc) + elements[0])
  }

  function Join(elements: seq<string>): string {
    JoinFrom(elements, 0, "")
  }

  /** An option and whether it is switched on. */
  type Choice = (bool, string)

  function Enabled(choices: seq<Choice>): seq<string> {
    if choices == [] then []
    else Enabled(choices[..|choices| - 1])
         + (if choices[|choices| - 1].0 then [choices[|choices| - 1].1] else [])
  }

  /** Selecting works choice by choice, in order, and selects the element of each that is switched on. */
  lemma {:induction false} EnabledMeaning(a: seq<Choice>, b: seq<Choice>, c: Choice)
    ensures Enabled([]) == []
    ensures Enabled([c]) == if c.0 then [c.1] else []
    ensures Enabled(a + b) == Enabled(a) + Enabled(b)
  {
    if b == [] {
      assert a + b == a;
    } else {
      var init := b[..|b| - 1];
      assert (a + b)[..|a + b| - 1] == a + init;
      EnabledMeaning(a, init, c);
    }
    assert [c][..0] == [];
  }

  method Append(value: string, first: bool, should: bool, element: string) returns (value': string, first': bool)
    ensures !should ==> value' == value && first' == first
    ensures should ==> !first' && value' == (if first then value else value + ",") + element
  {
    value', first' := value, first;
    if !should {
      return;
    }
    if !first' {
      value' := value' + ",";
    }
    first' := false;
    value' := value' + element;
  }

  lemma {:induction false} JoinLast(elements: seq<string>, last: string, idx: nat, acc: string)
    ensures JoinFrom(elements + [last], idx, acc)
            == (if idx + |elements| > 0 then JoinFrom(elements, idx, acc) + "," else JoinFrom(elements, idx, acc))
               + last
  {
    if elements == [] {
      assert ([] + [last])[1..] == [];
    } else {
      assert (elements + [last])[1..] == elements[1..] + [last];
      JoinLast(elements[1..], last, idx + 1, (if idx > 0 then acc + "," else acc) + elements[0]);
    }
  }

  lemma JoinMore(elements: seq<string>, last: string)
    ensures Join(elements + [last]) == if elements == [] then last else Join(elements) + "," + last
  {
    JoinLast(elements, last, 0, "");
    assert "" + last == last;
  }

  /** What joining means: the elements in order, with a comma between neighbours. */
  lemma {:induction false} JoinMeaning(a: seq<string>, b: seq<string>, e: string)
    requires a != [] && b != []
    ensures Join([]) == "" && Join([e]) == e
    ensures Join(a + b) == Join(a) + "," + Join(b)
  {
    JoinMore([], e);
    assert [] + [e] == [e];
    var init, last := b[..|b| - 1], b[|b| - 1];
    assert b == init + [last] && a + b == (a + init) + [last];
    JoinMore(a + init, last);
    JoinMore(init, last);
    if init == [] {
      assert a + init == a;
    } else {
      JoinMeaning(a, init, e);
      assert Join(a) + "," + Join(init) + "," + last == Join(a) + "," + (Join(init) + "," + last);
    }
  }

  /** What the `build` methods compute: appending the options one by one is joining the enabled ones. */
  method Build(choices: seq<Choice>) returns (value: string)
    ensures value == Join(Enabled(choices))
  {
    value := "";
    var first := true;
    for i := 0 to |choices|
      invariant value == Join(Enabled(choices[..i]))
      invariant first <==> Enabled(choices[..i]) == []
    {
      var elements := Enabled(choices[..i]);
      JoinLast(elements, choices[i].1, 0, "");
      assert choices[..i + 1][..i] == choices[..i];
      assert Enabled(choices[..i + 1]) == if choices[i].0 then elements + [choices[i].1] else elements;
      value, first := Append(value, first, choices[i].0, choices[i].1);
    }
    assert choices[..|choices|] == choices;
  }

  // ---------------------------------------------------------------- splitting again

  /** Splitting at every comma. */
  function Split(s: string): (r: seq<string>)
    ensures r != []
  {
    if s == "" then [""]
    else
      var rest := Split(s[1..]);
      if s[0] == ',' then [""] + rest else [[s[0]] + rest[0]] + rest[1..]
  }

  predicate NoCommas(elements: seq<string>) {
    forall e :: e in elements ==> ',' !in e
  }

  lemma {:induction false} SplitHasNoCommas(s: string)
    ensures NoCommas(Split(s))
  {
    if s != "" {
      SplitHasNoCommas(s[1..]);
    }
  }

  lemma {:induction false} SplitAtLastComma(s: string, last: string)
    requires ',' !in last
    ensures Split(s + "," + last) == Split(s) + [last]
  {
    if s == "" {
      assert s + "," + last == [','] + last;
      SplitWithoutComma(last);
    } else {
      assert (s + "," + last)[1..] == s[1..] + "," + last;
      SplitAtLastComma(s[1..], last);
    }
  }

  lemma {:induction false} SplitWithoutComma(s: string)
    requires ',' !in s
    ensures Split(s) == [s]
  {
    if s != "" {
      SplitWithoutComma(s[1..]);
      assert [s[0]] + s[1..] == s;
    }
  }

  lemma {:induction false} SplitAfterJoin(elements: seq<string>)
    requires elements != [] && NoCommas(elements)
    ensures Split(Join(elements)) == elements
  {
    var n := |elements| - 1;
    var init, last := elements[..n], elements[n];
    assert elements == init + [last];
    assert last in elements;
    JoinLast(init, last, 0, "");
    if n == 0 {
      assert init == [] && Join(elements) == "" + last == last;
      SplitWithoutComma(last);
    } else {
      SplitAfterJoin(init);
      SplitAtLastComma(Join(init), last);
    }
  }

  /** Splitting undoes joining exactly for nonempty lists of comma-free elements. */
  lemma SplitUndoesJoin(elements: seq<string>)
    ensures Split(Join(elements)) == elements <==> elements != [] && NoCommas(elements)
  {
    if elements != [] && NoCommas(elements) {
      SplitAfterJoin(elements);
    }
    SplitHasNoCommas(Join(elements));
  }
}
