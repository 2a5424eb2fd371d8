/**
 Operations on the ordered record list: the search filter, the names the
 listbox shows, lookup of a record by its listbox name, and removal of a
 selected record.
 */
module Catalog {
  import opened Wrappers
  import opened Records
  import Text

  /** `xs` is `ys` with some elements left out, the rest kept in order. */
  predicate IsSubsequence<T(==)>(xs: seq<T>, ys: seq<T>)
    decreases |ys|
  {
    if xs == [] then true
    else if ys == [] then false
    else if xs[0] == ys[0] then IsSubsequence(xs[1..], ys[1..])
    else IsSubsequence(xs, ys[1..])
  }

  lemma {:induction false} SubsequenceMembers<T>(xs: seq<T>, ys: seq<T>)
    requires IsSubsequence(xs, ys)
    ensures forall x :: x in xs ==> x in ys
    decreases |ys|
  {
    if xs != [] && ys != [] {
      if xs[0] == ys[0] {
        SubsequenceMembers(xs[1..], ys[1..]);
        assert forall x :: x in xs ==> x == xs[0] || x in xs[1..];
      } else {
        SubsequenceMembers(xs, ys[1..]);
      }
    }
  }

  lemma {:induction false} SubsequenceReflexive<T>(xs: seq<T>)
    ensures IsSubsequence(xs, xs)
    decreases |xs|
  {
    if xs != [] {
      SubsequenceReflexive(xs[1..]);
    }
  }

  /** Putting one more element in front of the longer list keeps a subsequence a subsequence. */
  lemma {:induction false} SubsequenceCons<T>(xs: seq<T>, ys: seq<T>, y: T)
    requires IsSubsequence(xs, ys)
    ensures IsSubsequence(xs, [y] + ys)
    decreases |ys|, 1
  {
    assert ([y] + ys)[1..] == ys;
    if xs != [] && xs[0] == y {
      SubsequenceTail(xs, ys);
    }
  }

  /** Dropping the first element of a subsequence keeps it a subsequence. */
  lemma {:induction false} SubsequenceTail<T>(xs: seq<T>, ys: seq<T>)
    requires xs != [] && IsSubsequence(xs, ys)
    ensures IsSubsequence(xs[1..], ys)
    decreases |ys|, 0
  {
    var tail := ys[1..];
    assert ys == [ys[0]] + tail;
    if xs[0] == ys[0] {
      SubsequenceCons(xs[1..], tail, ys[0]);
    } else {
      SubsequenceTail(xs, tail);
      SubsequenceCons(xs[1..], tail, ys[0]);
    }
  }

  /**
   The search test of one record against an already lower-cased query:
   the query occurs in the lower-cased name or in the lower-cased type.
   */
  predicate Matches(b: Beer, ft: string)
    ensures Matches(b, ft) <==>
      (exists i :: Text.OccursAt(Text.Lower(b.name), ft, i)) || (exists i :: Text.OccursAt(Text.Lower(b.kind), ft, i))
  {
    Text.ContainsIff(Text.Lower(b.name), ft);
    Text.ContainsIff(Text.Lower(b.kind), ft);
    Text.Contains(Text.Lower(b.name), ft) || Text.Contains(Text.Lower(b.kind), ft)
  }

  /** The records of `bs` that match the lower-cased query `ft`, in list order. */
  function Filter(bs: seq<Beer>, ft: string): (r: seq<Beer>)
    ensures |r| <= |bs|
    ensures IsSubsequence(r, bs)
    ensures forall b :: b in r <==> b in bs && Matches(b, ft)
  {
    if bs == [] then []
    else
      var rest := Filter(bs[1..], ft);
      assert forall b :: b in bs <==> b == bs[0] || b in bs[1..];
      if Matches(bs[0], ft) then [bs[0]] + rest else rest
  }

  /** Filtering a concatenation filters each part. */
  lemma {:induction false} FilterAppend(xs: seq<Beer>, ys: seq<Beer>, ft: string)
    ensures Filter(xs + ys, ft) == Filter(xs, ft) + Filter(ys, ft)
    decreases |xs|
  {
    if xs == [] {
      assert xs + ys == ys;
    } else {
      assert (xs + ys)[1..] == xs[1..] + ys;
      FilterAppend(xs[1..], ys, ft);
    }
  }

  /** Each record is kept as often as it occurs when it matches, and dropped when it does not. */
  lemma {:induction false} FilterCount(bs: seq<Beer>, ft: string, b: Beer)
    ensures multiset(Filter(bs, ft))[b] == if Matches(b, ft) then multiset(bs)[b] else 0
    decreases |bs|
  {
    if bs != [] {
      FilterCount(bs[1..], ft, b);
      assert bs == [bs[0]] + bs[1..];
    }
  }

  /** A query every record matches keeps the whole list. */
  lemma {:induction false} FilterAllMatch(bs: seq<Beer>, ft: string)
    requires forall k :: 0 <= k < |bs| ==> Matches(bs[k], ft)
    ensures Filter(bs, ft) == bs
    decreases |bs|
  {
    if bs != [] {
      FilterAllMatch(bs[1..], ft);
    }
  }

  /** A needle whose first character the haystack lacks does not occur in it. */
  lemma {:induction false} MissingFirstChar(hay: string, needle: string)
    requires needle != []
    requires forall k :: 0 <= k < |hay| ==> hay[k] != needle[0]
    ensures !Text.Contains(hay, needle)
    decreases |hay|
  {
    if |needle| <= |hay| {
      assert hay[..|needle|][0] == hay[0];
      MissingFirstChar(hay[1..], needle);
    }
  }

  lemma LowerSamples()
    ensures Text.Lower("lager") == "lager" && Text.Lower("y") == "y"
    ensures Text.Lower("Lager") == "lager" && Text.Lower("Stout") == "stout"
  {
  }

  lemma LowerSampleNames()
    ensures Text.Lower("Lager X") == "lager x" && Text.Lower("Stout Y") == "stout y"
  {
  }

  /** A needle found at some position is contained. */
  lemma {:induction false} OccursAtContains(hay: string, needle: string, i: nat)
    requires i + |needle| <= |hay| && hay[i..i + |needle|] == needle
    ensures Text.Contains(hay, needle)
    decreases i
  {
    if i > 0 && hay[..|needle|] != needle {
      assert hay[1..][i - 1..i - 1 + |needle|] == hay[i..i + |needle|];
      OccursAtContains(hay[1..], needle, i - 1);
    }
  }

  const SampleLager: Beer := Beer("Lager X", "Lager", "100", "Hi")
  const SampleStout: Beer := Beer("Stout Y", "Stout", "120", "Hello")

  lemma SampleMatchesLager()
    ensures Matches(SampleLager, "lager") && !Matches(SampleStout, "lager")
  {
    LowerSamples();
    LowerSampleNames();
    assert "lager x"[..5] == "lager";
    MissingFirstChar("stout y", "lager");
    MissingFirstChar("stout", "lager");
  }

  lemma SampleMatchesY()
    ensures !Matches(SampleLager, "y") && Matches(SampleStout, "y")
  {
    LowerSamples();
    LowerSampleNames();
    MissingFirstChar("lager x", "y");
    MissingFirstChar("lager", "y");
    OccursAtContains("stout y", "y", 6);
  }

  /** Case-insensitive matching on name or type, on two sample records: "lager" keeps the first. */
  lemma FilterExampleLager()
    ensures Visible([SampleLager, SampleStout], Some("lager")) == [SampleLager]
  {
    LowerSamples();
    SampleMatchesLager();
    var bs := [SampleLager, SampleStout];
    assert bs[1..] == [SampleStout] && [SampleStout][1..] == [];
    assert Filter(bs, "lager") == [SampleLager] + Filter([SampleStout], "lager");
  }

  /** On the same records, "y" keeps only the second, whose name ends in Y. */
  lemma FilterExampleY()
    ensures Visible([SampleLager, SampleStout], Some("y")) == [SampleStout]
  {
    LowerSamples();
    SampleMatchesY();
    var bs := [SampleLager, SampleStout];
    assert bs[1..] == [SampleStout] && [SampleStout][1..] == [];
    assert Filter(bs, "y") == Filter([SampleStout], "y");
  }

  /**
   The list `refresh_list` shows. No filter, or an empty one, shows every
   record; a non-empty filter is lower-cased and applied with `Filter`.
   */
  function Visible(bs: seq<Beer>, filter: Option<string>): (r: seq<Beer>)
    ensures IsSubsequence(r, bs)
    ensures forall b :: b in r <==> b in bs && (filter.None? || filter.value == [] || Matches(b, Text.Lower(filter.value)))
  {
    match filter
    case Some(ft) =>
      if ft == [] then
        SubsequenceReflexive(bs);
        bs
      else Filter(bs, Text.Lower(ft))
    case None =>
      SubsequenceReflexive(bs);
      bs
  }

  /** With no filter the shown list is the full list, in the same order. */
  lemma VisibleUnfiltered(bs: seq<Beer>, filter: Option<string>)
    requires filter.None? || filter.value == []
    ensures Visible(bs, filter) == bs
  {
  }

  /** The query's case does not matter: filtering by `ft` and by its lower-case form agree. */
  lemma VisibleIgnoresQueryCase(bs: seq<Beer>, ft: string)
    ensures Visible(bs, Some(ft)) == Visible(bs, Some(Text.Lower(ft)))
  {
    Text.LowerIdempotent(ft);
  }

  /** The listbox entries for a shown list: one name per record. */
  function Names(bs: seq<Beer>): (r: seq<string>)
    ensures |r| == |bs|
    ensures forall k :: 0 <= k < |bs| ==> r[k] == bs[k].name
    ensures forall b :: b in bs ==> b.name in r
    ensures forall n :: n in r ==> exists k :: 0 <= k < |bs| && bs[k].name == n
  {
    var r := seq(|bs|, k requires 0 <= k < |bs| => bs[k].name);
    assert forall b :: b in bs ==> r[FirstIndex(bs, b)] == b.name;
    r
  }

  /** Index of the first record named `name`, the record the `on_select` loop stops at. */
  function FindName(bs: seq<Beer>, name: string): (r: Option<nat>)
    ensures r.None? <==> forall k :: 0 <= k < |bs| ==> bs[k].name != name
    ensures r.Some? ==> r.value < |bs| && bs[r.value].name == name
    ensures r.Some? ==> forall k :: 0 <= k < r.value ==> bs[k].name != name
  {
    if bs == [] then None
    else if bs[0].name == name then Some(0)
    else match FindName(bs[1..], name)
      case None => None
      case Some(i) => Some(i + 1)
  }

  /** The first record named `name`, if one exists. */
  function FirstByName(bs: seq<Beer>, name: string): (r: Option<Beer>)
    ensures r.None? <==> name !in Names(bs)
    ensures r.Some? ==> r.value in bs && r.value.name == name
    ensures r.Some? ==> exists i :: 0 <= i < |bs| && bs[i] == r.value && forall k :: 0 <= k < i ==> bs[k].name != name
  {
    match FindName(bs, name)
    case None => None
    case Some(i) =>
      assert Names(bs)[i] == name;
      Some(bs[i])
  }

  /** The loop of `on_select`: scan the records in order and stop at the first one named `name`. */
  method LookupName(bs: seq<Beer>, name: string) returns (found: Option<Beer>)
    ensures found == FirstByName(bs, name)
    ensures found.Some? ==> found.value in bs && found.value.name == name
    ensures found.None? ==> forall k :: 0 <= k < |bs| ==> bs[k].name != name
  {
    found := None;
    var i := 0;
    while i < |bs|
      invariant 0 <= i <= |bs|
      invariant forall k :: 0 <= k < i ==> bs[k].name != name
    {
      if bs[i].name == name {
        found := Some(bs[i]);
        assert FindName(bs, name) == Some(i);
        return;
      }
      i := i + 1;
    }
  }

  /** Index of the first occurrence of `x` in `xs`. */
  function FirstIndex<T(==)>(xs: seq<T>, x: T): (i: nat)
    requires x in xs
    ensures i < |xs| && xs[i] == x && x !in xs[..i]
  {
    if xs[0] == x then 0
    else
      var j := FirstIndex(xs[1..], x);
      assert xs[..j + 1] == [xs[0]] + xs[1..][..j];
      j + 1
  }

  /**
   Python's `list.remove(x)`: drop the first element equal to `x`; `None`
   stands for the `ValueError` raised when there is none.
   */
  function RemoveFirst<T(==)>(xs: seq<T>, x: T): (r: Option<seq<T>>)
    ensures r.None? <==> x !in xs
    ensures r.Some? ==> |r.value| == |xs| - 1
    ensures r.Some? ==> multiset(r.value) + multiset{x} == multiset(xs)
    ensures r.Some? ==> IsSubsequence(r.value, xs)
  {
    if xs == [] then None
    else if xs[0] == x then
      SubsequenceReflexive(xs[1..]);
      assert xs == [x] + xs[1..];
      SubsequenceCons(xs[1..], xs[1..], x);
      Some(xs[1..])
    else match RemoveFirst(xs[1..], x)
      case None => None
      case Some(t) =>
        SubsequenceBothCons(t, xs[1..], xs[0]);
        assert multiset(xs) == multiset{xs[0]} + multiset(xs[1..]) by { assert xs == [xs[0]] + xs[1..]; }
        Some([xs[0]] + t)
  }

  lemma SubsequenceBothCons<T>(xs: seq<T>, ys: seq<T>, y: T)
    requires IsSubsequence(xs, ys)
    ensures IsSubsequence([y] + xs, [y] + ys)
  {
    assert ([y] + xs)[1..] == xs && ([y] + ys)[1..] == ys;
  }

  lemma RemoveFirstCons<T>(xs: seq<T>, x: T, t: seq<T>)
    requires xs != [] && xs[0] != x && RemoveFirst(xs[1..], x) == Some(t)
    ensures RemoveFirst(xs, x) == Some([xs[0]] + t)
  {
  }

  lemma SpliceCons<T>(xs: seq<T>, i: nat)
    requires 0 < i < |xs|
    ensures xs[..i] + xs[i + 1..] == [xs[0]] + (xs[1..][..i - 1] + xs[1..][i..])
  {
  }

  /** `list.remove` removes exactly the first occurrence and keeps everything else in place. */
  lemma {:induction false} RemoveFirstAt<T>(xs: seq<T>, x: T, i: nat)
    requires i < |xs| && xs[i] == x && x !in xs[..i]
    ensures RemoveFirst(xs, x) == Some(xs[..i] + xs[i + 1..])
    decreases i
  {
    if i == 0 {
      assert xs[..0] + xs[1..] == xs[1..];
    } else {
      var tail := xs[1..];
      assert xs[0] != x by { assert xs[..i][0] == xs[0]; }
      assert tail[..i - 1] == xs[1..i];
      RemoveFirstAt(tail, x, i - 1);
      RemoveFirstCons(xs, x, tail[..i - 1] + tail[i..]);
      SpliceCons(xs, i);
    }
  }
}
