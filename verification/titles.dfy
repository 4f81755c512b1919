/**
 * The derived author data of the folder-drop handler (main.go): the list of
 * distinct titles offered by the title drop-down, and the half/half title
 * overwrite applied to freshly extracted author rows.
 */
module Titles {
  import opened Common

  /** `extraAuthorTitles`: appended to the drop-down options and used by the overwrite. */
  const ExtraAuthorTitles: seq<string> := ["Разраб.", "Проверил"]

  /** Column 0 of the author rows. */
  function TitlesOf(rows: seq<AuthorRow>): (titles: seq<string>)
    ensures |titles| == |rows|
    ensures forall i :: 0 <= i < |rows| ==> titles[i] == rows[i].title
  {
    seq(|rows|, i requires 0 <= i < |rows| => rows[i].title)
  }

  /** Each value of `xs` once, at the place it is first seen. */
  function FirstOccurrences(xs: seq<string>): seq<string>
    decreases |xs|
  {
    if |xs| == 0 then []
    else
      var init := xs[..|xs| - 1];
      FirstOccurrences(init) + (if xs[|xs| - 1] in init then [] else [xs[|xs| - 1]])
  }

  /** The index of the first occurrence of `x` in `xs`. */
  function FirstIndex(xs: seq<string>, x: string): (k: nat)
    requires x in xs
    ensures k < |xs| && xs[k] == x && x !in xs[..k]
    decreases |xs|
  {
    var init := xs[..|xs| - 1];
    if x in init then
      var k := FirstIndex(init, x);
      assert xs[..k] == init[..k];
      k
    else
      |xs| - 1
  }

  /** The distinct list holds exactly the values that occur. */
  lemma {:induction false} FirstOccurrencesElements(xs: seq<string>)
    ensures forall x :: x in FirstOccurrences(xs) <==> x in xs
    decreases |xs|
  {
    if |xs| > 0 {
      var init := xs[..|xs| - 1];
      FirstOccurrencesElements(init);
      assert xs == init + [xs[|xs| - 1]];
    }
  }

  /** The distinct list has no duplicates. */
  lemma {:induction false} FirstOccurrencesDistinct(xs: seq<string>)
    ensures forall i, j :: 0 <= i < j < |FirstOccurrences(xs)| ==>
      FirstOccurrences(xs)[i] != FirstOccurrences(xs)[j]
    decreases |xs|
  {
    if |xs| > 0 {
      var init := xs[..|xs| - 1];
      FirstOccurrencesDistinct(init);
      FirstOccurrencesElements(init);
    }
  }

  /** The distinct list keeps first-seen order: a value listed earlier was first seen earlier. */
  lemma {:induction false} FirstOccurrencesOrder(xs: seq<string>)
    ensures forall x :: x in FirstOccurrences(xs) ==> x in xs
    ensures forall i, j :: 0 <= i < j < |FirstOccurrences(xs)| ==>
      FirstIndex(xs, FirstOccurrences(xs)[i]) < FirstIndex(xs, FirstOccurrences(xs)[j])
    decreases |xs|
  {
    FirstOccurrencesElements(xs);
    if |xs| > 0 {
      var init := xs[..|xs| - 1];
      var d := FirstOccurrences(xs);
      var d0 := FirstOccurrences(init);
      FirstOccurrencesOrder(init);
      FirstOccurrencesElements(init);
      forall i, j | 0 <= i < j < |d|
        ensures FirstIndex(xs, d[i]) < FirstIndex(xs, d[j])
      {
        assert d[i] == d0[i] && d[i] in init;
        if j < |d0| {
          assert d[j] == d0[j] && d[j] in init;
        } else {
          assert d[j] == xs[|xs| - 1] && d[j] !in init;
        }
      }
    }
  }

  /** A repeated title is listed once, at its first place: ["Checked", "Checked", "Designed"] gives ["Checked", "Designed"]. */
  lemma DistinctTitlesExample()
    ensures FirstOccurrences(["Checked", "Checked", "Designed"]) == ["Checked", "Designed"]
  {
    var one: seq<string> := ["Checked"];
    var two: seq<string> := ["Checked", "Checked"];
    var xs: seq<string> := ["Checked", "Checked", "Designed"];
    assert one[..0] == [];
    assert FirstOccurrences(one) == ["Checked"];
    assert two[..1] == one;
    assert FirstOccurrences(two) == ["Checked"];
    assert xs[..2] == two;
    assert "Designed" !in two;
  }

  /**
   * The drop-down options built by the drop handler: column 0's values in
   * first-seen order (a `seen` set screens repeats), then both extra titles,
   * appended whether or not they already occur.
   */
  method CollectTitles(rows: seq<AuthorRow>) returns (titles: seq<string>)
    ensures titles == FirstOccurrences(TitlesOf(rows)) + ExtraAuthorTitles
  {
    var column := TitlesOf(rows);
    titles := [];
    var seen: set<string> := {};
    var i := 0;
    while i < |rows|
      invariant 0 <= i <= |rows|
      invariant forall x :: x in seen <==> x in column[..i]
      invariant titles == FirstOccurrences(column[..i])
    {
      var author := rows[i].title;
      assert column[..i + 1][..i] == column[..i];
      assert column[..i + 1] == column[..i] + [author];
      if author !in seen {
        seen := seen + {author};
        titles := titles + [author];
      }
      i := i + 1;
    }
    assert column[..|rows|] == column;
    var k := 0;
    ghost var distinct := titles;
    while k < |ExtraAuthorTitles|
      invariant 0 <= k <= |ExtraAuthorTitles|
      invariant titles == distinct + ExtraAuthorTitles[..k]
    {
      titles := titles + [ExtraAuthorTitles[k]];
      k := k + 1;
    }
  }

  /** The title the overwrite gives row `i` of `n`: the first extra title for the first half (n/2 rounded down), the second for the rest. */
  function HalfTitle(i: int, n: int): string
  {
    if i < n / 2 then ExtraAuthorTitles[0] else ExtraAuthorTitles[1]
  }

  /** The title overwrite: every row keeps its name and gets `HalfTitle` as its title; the row count is unchanged. */
  method AssignTitles(rows: seq<AuthorRow>) returns (result: seq<AuthorRow>)
    ensures |result| == |rows|
    ensures forall i :: 0 <= i < |rows| ==> result[i].name == rows[i].name
    ensures forall i :: 0 <= i < |rows| ==>
      result[i].title == if i < |rows| / 2 then ExtraAuthorTitles[0] else ExtraAuthorTitles[1]
  {
    result := rows;
    var authorDataLen := |rows|;
    var i := 0;
    while i < |result|
      invariant |result| == |rows| && 0 <= i <= |result|
      invariant forall k :: 0 <= k < |rows| ==> result[k].name == rows[k].name
      invariant forall k :: 0 <= k < i ==> result[k].title == HalfTitle(k, authorDataLen)
    {
      if i < authorDataLen / 2 {
        result := result[i := result[i].(title := ExtraAuthorTitles[0])];
      } else {
        result := result[i := result[i].(title := ExtraAuthorTitles[1])];
      }
      i := i + 1;
    }
  }
}
