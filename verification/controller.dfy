/**
 The record-list controller of the label application, with the widget
 toolkit taken away: the state it keeps between user actions and one
 transition per action (search, reset, selection, add, delete).
 */
module Controller {
  import opened Wrappers
  import opened Records
  import opened Catalog
  import Text
  import opened Store

  /**
   What the controller keeps between actions: the record list, the
   selected record, the names shown in the listbox, and the list as last
   written to the data file.
   */
  datatype State = State(beers: seq<Beer>, selected: Option<Beer>, listed: seq<string>, persisted: Document)

  /**
   `on_select`: `index` is the listbox's current selection. The record
   selected is the first one in the whole list that carries the chosen
   name; with nothing chosen, or no record of that name, the old
   selection stays.
   */
  function OnSelect(s: State, index: Option<nat>): (r: State)
    requires index.Some? ==> index.value < |s.listed|
    ensures r.beers == s.beers && r.listed == s.listed && r.persisted == s.persisted
    ensures index.None? ==> r.selected == s.selected
    ensures index.Some? && s.listed[index.value] !in Names(s.beers) ==> r.selected == s.selected
    ensures index.Some? && s.listed[index.value] in Names(s.beers) ==>
      && r.selected.Some?
      && r.selected.value in s.beers
      && r.selected.value.name == s.listed[index.value]
      && r.selected == FirstByName(s.beers, s.listed[index.value])
  {
    match index
    case None => s
    case Some(i) =>
      match FirstByName(s.beers, s.listed[i])
      case None => s
      case Some(b) => s.(selected := Some(b))
  }

  /**
   `refresh_list`: rebuild the listbox from the visible records and, when
   any are visible, select the first entry as the user would.
   */
  function Refresh(s: State, filter: Option<string>): (r: State)
    ensures r.beers == s.beers && r.persisted == s.persisted
    ensures r.listed == Names(Visible(s.beers, filter))
    ensures Visible(s.beers, filter) == [] ==> r.selected == s.selected
    ensures Visible(s.beers, filter) != [] ==>
      && r.selected.Some?
      && r.selected.value in s.beers
      && r.selected.value.name == Visible(s.beers, filter)[0].name
      && r.selected == FirstByName(s.beers, Visible(s.beers, filter)[0].name)
  {
    var shown := Visible(s.beers, filter);
    var t := s.(listed := Names(shown));
    if shown == [] then t
    else
      SubsequenceMembers(shown, s.beers);
      OnSelect(t, Some(0))
  }

  /** With no filter and a non-empty list, refreshing selects the first record itself. */
  lemma RefreshUnfilteredSelectsHead(s: State, filter: Option<string>)
    requires filter.None? || filter.value == []
    ensures s.beers != [] ==> Refresh(s, filter).selected == Some(s.beers[0])
    ensures Refresh(s, filter).listed == Names(s.beers)
  {
    VisibleUnfiltered(s.beers, filter);
    if s.beers != [] {
      assert FindName(s.beers, s.beers[0].name) == Some(0);
    }
  }

  /** No two records share a name. */
  predicate UniqueNames(bs: seq<Beer>)
  {
    forall i, j :: 0 <= i < j < |bs| ==> bs[i].name != bs[j].name
  }

  lemma {:induction false} UniqueNamesSubsequence(xs: seq<Beer>, ys: seq<Beer>)
    requires IsSubsequence(xs, ys) && UniqueNames(ys)
    ensures UniqueNames(xs)
    decreases |ys|
  {
    if xs != [] && ys != [] {
      if xs[0] == ys[0] {
        UniqueNamesSubsequence(xs[1..], ys[1..]);
        SubsequenceMembers(xs[1..], ys[1..]);
        forall j | 0 < j < |xs|
          ensures xs[0].name != xs[j].name
        {
          assert xs[j] == xs[1..][j - 1];
          assert xs[j] in ys[1..];
          var m :| 0 <= m < |ys[1..]| && ys[1..][m] == xs[j];
          assert ys[m + 1] == xs[j];
        }
        forall i, j | 0 <= i < j < |xs|
          ensures xs[i].name != xs[j].name
        {
          if i > 0 {
            assert xs[i] == xs[1..][i - 1] && xs[j] == xs[1..][j - 1];
          }
        }
      } else {
        UniqueNamesSubsequence(xs, ys[1..]);
      }
    }
  }

  /** When names are unique, refreshing selects exactly the first visible record. */
  lemma RefreshUniqueSelectsFirstVisible(s: State, filter: Option<string>)
    requires UniqueNames(s.beers)
    requires Visible(s.beers, filter) != []
    ensures Refresh(s, filter).selected == Some(Visible(s.beers, filter)[0])
  {
    var shown := Visible(s.beers, filter);
    SubsequenceMembers(shown, s.beers);
    var b := Refresh(s, filter).selected.value;
    var i :| 0 <= i < |s.beers| && s.beers[i] == b;
    assert shown[0] in s.beers;
    var j :| 0 <= j < |s.beers| && s.beers[j] == shown[0];
  }

  /**
   With two records of the same name, a search can show one of them and
   select the other: the lookup by name ignores the filter.
   */
  lemma DuplicateNameSelectsHiddenRecord()
    ensures var ale := Beer("X", "ale", "1", "a");
            var lager := Beer("X", "lager", "2", "b");
            var s := State([ale, lager], None, [], Absent);
            && Visible(s.beers, Some("lager")) == [lager]
            && Refresh(s, Some("lager")).selected == Some(ale)
  {
    var ale := Beer("X", "ale", "1", "a");
    var lager := Beer("X", "lager", "2", "b");
    assert Text.Lower("X") == "x";
    assert Text.Lower("ale") == "ale";
    assert Text.Lower("lager") == "lager";
    assert !Text.Contains("x", "lager");
    assert !Text.Contains("ale", "lager");
    assert Text.Contains("lager", "lager");
    assert Filter([ale, lager], "lager") == [lager];
    assert FindName([ale, lager], "X") == Some(0);
  }

  /** The query a search submits: the stripped entry text, or no filter when that is empty. */
  function Query(text: string): (r: Option<string>)
    ensures r.None? <==> Text.AllSpace(text)
    ensures r.Some? ==> r.value == Text.Strip(text) && r.value != []
  {
    var t := Text.Strip(text);
    if t == [] then None else Some(t)
  }

  /** `search`: refresh with the stripped query. */
  function Search(s: State, text: string): (r: State)
    ensures r.beers == s.beers && r.persisted == s.persisted
    ensures !Text.AllSpace(text) ==> r.listed == Names(Filter(s.beers, Text.Lower(Text.Strip(text))))
    ensures !Text.AllSpace(text) && Filter(s.beers, Text.Lower(Text.Strip(text))) != [] ==>
      r.selected == FirstByName(s.beers, Filter(s.beers, Text.Lower(Text.Strip(text)))[0].name)
    ensures !Text.AllSpace(text) && Filter(s.beers, Text.Lower(Text.Strip(text))) == [] ==>
      r.selected == s.selected
  {
    Refresh(s, Query(text))
  }

  /** `reset_search`: refresh with no filter. */
  function ResetSearch(s: State): (r: State)
    ensures r.beers == s.beers && r.persisted == s.persisted
    ensures r.listed == Names(s.beers)
    ensures s.beers != [] ==> r.selected == Some(s.beers[0])
    ensures s.beers == [] ==> r.selected == s.selected
  {
    VisibleUnfiltered(s.beers, None);
    RefreshUnfilteredSelectsHead(s, None);
    Refresh(s, None)
  }

  /** A search for whitespace only does exactly what reset does. */
  lemma SearchBlankIsReset(s: State, text: string)
    requires Text.AllSpace(text)
    ensures Search(s, text) == ResetSearch(s)
  {
  }

  /**
   Searching depends on the entry text only through its stripped,
   lower-cased form: two such texts give the same state, selection included.
   */
  lemma SearchIgnoresQueryCase(s: State, t1: string, t2: string)
    requires Text.Lower(Text.Strip(t1)) == Text.Lower(Text.Strip(t2))
    ensures Search(s, t1) == Search(s, t2)
  {
    if Text.Strip(t1) != [] {
      VisibleIgnoresQueryCase(s.beers, Text.Strip(t1));
      VisibleIgnoresQueryCase(s.beers, Text.Strip(t2));
    }
  }

  /** The effect of pressing Save in the add dialog: the new state, or the blank field warned about. */
  datatype AddOutcome = AddOutcome(state: State, warning: Option<Field>)

  /**
   The add dialog's `save`: a blank field is reported and nothing changes;
   otherwise the stripped record is appended, the list is written and the
   listbox refreshed without a filter.
   */
  function Add(s: State, e: Entries, w: Write): (r: AddOutcome)
    ensures r.warning.Some? <==> !Filled(e)
    ensures r.warning.Some? ==> r.state == s
    ensures r.warning.Some? ==> Blank(e, r.warning.value)
    ensures r.warning.Some? ==> forall k :: 0 <= k < r.warning.value.Rank() ==> !Blank(e, Fields[k])
    ensures r.warning.None? ==>
      && r.state.beers == s.beers + [Beer(Text.Strip(e.name), Text.Strip(e.kind), Text.Strip(e.price), Text.Strip(e.greeting))]
      && r.state.persisted == Persist(s.persisted, r.state.beers, w)
      && r.state.listed == Names(r.state.beers)
      && r.state.selected == Some(r.state.beers[0])
  {
    match Validate(e)
    case Failure(f) => AddOutcome(s, Some(f))
    case Success(b) =>
      var bs := s.beers + [b];
      var t := State(bs, s.selected, s.listed, Persist(s.persisted, bs, w));
      RefreshUnfilteredSelectsHead(t, None);
      AddOutcome(Refresh(t, None), None)
  }

  /** A successful add keeps every earlier record where it was and puts one record after them. */
  lemma AddAppends(s: State, e: Entries, w: Write)
    requires Filled(e)
    ensures |Add(s, e, w).state.beers| == |s.beers| + 1
    ensures Add(s, e, w).state.beers[..|s.beers|] == s.beers
    ensures Valid(Add(s, e, w).state.beers[|s.beers|])
  {
    ValidateGivesValid(e);
    var bs := Add(s, e, w).state.beers;
    assert bs[..|s.beers|] == s.beers;
  }

  /**
   `delete_beer`: with no selection, or when the user declines, nothing
   changes. Otherwise the first record equal to the selected one is
   removed, the list written, the selection cleared and the listbox
   refreshed without a filter. When the selected record is not in the list
   `list.remove` raises before changing anything.
   */
  function Delete(s: State, confirmed: bool, w: Write): (r: State)
    ensures s.selected.None? || !confirmed ==> r == s
    ensures s.selected.Some? && s.selected.value !in s.beers ==> r == s
    ensures s.selected.Some? && confirmed && s.selected.value in s.beers ==>
      && |r.beers| == |s.beers| - 1
      && multiset(r.beers) + multiset{s.selected.value} == multiset(s.beers)
      && IsSubsequence(r.beers, s.beers)
      && r.persisted == Persist(s.persisted, r.beers, w)
      && r.listed == Names(r.beers)
      && r.selected == (if r.beers == [] then None else Some(r.beers[0]))
  {
    match s.selected
    case None => s
    case Some(sel) =>
      if !confirmed then s
      else match RemoveFirst(s.beers, sel)
        case None => s
        case Some(bs) =>
          var t := State(bs, None, s.listed, Persist(s.persisted, bs, w));
          VisibleUnfiltered(bs, None);
          RefreshUnfilteredSelectsHead(t, None);
          Refresh(t, None)
  }

  /** A confirmed delete of a listed record removes exactly its first occurrence. */
  lemma DeleteRemovesFirstOccurrence(s: State, w: Write)
    requires s.selected.Some? && s.selected.value in s.beers
    ensures var i := FirstIndex(s.beers, s.selected.value);
            Delete(s, true, w).beers == s.beers[..i] + s.beers[i + 1..]
  {
    var i := FirstIndex(s.beers, s.selected.value);
    RemoveFirstAt(s.beers, s.selected.value, i);
  }

  /**
   Start-up: the records `load_data` returns, nothing selected yet, then an
   unfiltered refresh. The data file is whatever was found.
   */
  function Init(doc: Document): (r: State)
    ensures r.beers == Load(doc).records && r.persisted == doc
    ensures doc.Stored? ==> r.beers == doc.records
    ensures !doc.Stored? ==> r.beers == [] && r.selected.None?
    ensures r.listed == Names(r.beers)
    ensures r.selected == if r.beers == [] then None else Some(r.beers[0])
  {
    var t := State(Load(doc).records, None, [], doc);
    RefreshUnfilteredSelectsHead(t, None);
    Refresh(t, None)
  }

  /** Starting from a readable file, the file and the list agree. */
  lemma InitStoredIsPersisted(bs: seq<Beer>)
    ensures Init(Stored(bs)).persisted == Stored(Init(Stored(bs)).beers)
  {
  }

  /** The user actions the controller reacts to. */
  datatype Event =
    | Select(index: Option<nat>)
    | SearchFor(text: string)
    | Reset
    | AddRecord(entries: Entries, outcome: Write)
    | DeleteSelected(confirmed: bool, outcome: Write)

  /** A selection event can only name an entry the listbox holds. */
  predicate Enabled(s: State, ev: Event)
  {
    ev.Select? && ev.index.Some? ==> ev.index.value < |s.listed|
  }

  /** One user action. Only adding and deleting touch the list or the file, by at most one record. */
  function Step(s: State, ev: Event): (r: State)
    requires Enabled(s, ev)
    ensures !ev.AddRecord? && !ev.DeleteSelected? ==> r.beers == s.beers && r.persisted == s.persisted
    ensures ev.AddRecord? ==> |r.beers| == |s.beers| || |r.beers| == |s.beers| + 1
    ensures ev.DeleteSelected? ==> |r.beers| == |s.beers| || |r.beers| == |s.beers| - 1
  {
    match ev
    case Select(index) => OnSelect(s, index)
    case SearchFor(text) => Search(s, text)
    case Reset => ResetSearch(s)
    case AddRecord(e, w) => Add(s, e, w).state
    case DeleteSelected(confirmed, w) => Delete(s, confirmed, w)
  }

  /**
   What holds between actions: the selection is a record of the list and
   every listbox entry names a record of the list.
   */
  predicate Inv(s: State)
  {
    && (s.selected.Some? ==> s.selected.value in s.beers)
    && forall k :: 0 <= k < |s.listed| ==> s.listed[k] in Names(s.beers)
  }

  lemma RefreshInv(s: State, filter: Option<string>)
    requires s.selected.Some? ==> s.selected.value in s.beers
    ensures Inv(Refresh(s, filter))
  {
    var shown := Visible(s.beers, filter);
    SubsequenceMembers(shown, s.beers);
    forall k | 0 <= k < |shown|
      ensures Names(shown)[k] in Names(s.beers)
    {
      assert shown[k] in s.beers;
    }
  }

  lemma InitInv(doc: Document)
    ensures Inv(Init(doc))
  {
    RefreshInv(State(Load(doc).records, None, [], doc), None);
  }

  /** Every action keeps the invariant. */
  lemma StepInv(s: State, ev: Event)
    requires Inv(s) && Enabled(s, ev)
    ensures Inv(Step(s, ev))
  {
    match ev
    case Select(index) =>
    case SearchFor(text) => RefreshInv(s, Query(text));
    case Reset => RefreshInv(s, None);
    case AddRecord(e, w) =>
      if Validate(e).Success? {
        var bs := s.beers + [Validate(e).value];
        RefreshInv(State(bs, s.selected, s.listed, Persist(s.persisted, bs, w)), None);
      }
    case DeleteSelected(confirmed, w) =>
      if s.selected.Some? && confirmed {
        var bs := RemoveFirst(s.beers, s.selected.value).value;
        RefreshInv(State(bs, None, s.listed, Persist(s.persisted, bs, w)), None);
      }
  }

  /**
   Under the invariant a confirmed delete never meets the `ValueError`
   path: it always removes one record.
   */
  lemma DeleteUnderInvRemovesOne(s: State, w: Write)
    requires Inv(s) && s.selected.Some?
    ensures |Delete(s, true, w).beers| == |s.beers| - 1
  {
  }

  /** Every record of the list was created through the add dialog's checks. */
  predicate AllValid(bs: seq<Beer>)
  {
    forall k :: 0 <= k < |bs| ==> Valid(bs[k])
  }

  lemma AddKeepsValid(s: State, e: Entries, w: Write)
    requires AllValid(s.beers)
    ensures AllValid(Add(s, e, w).state.beers)
  {
    if Filled(e) {
      AddAppends(s, e, w);
      var bs := Add(s, e, w).state.beers;
      forall k | 0 <= k < |bs|
        ensures Valid(bs[k])
      {
        if k < |s.beers| { assert bs[k] == bs[..|s.beers|][k]; }
      }
    }
  }

  lemma DeleteKeepsValid(s: State, confirmed: bool, w: Write)
    requires AllValid(s.beers)
    ensures AllValid(Delete(s, confirmed, w).beers)
  {
    var bs := Delete(s, confirmed, w).beers;
    if bs != s.beers {
      SubsequenceMembers(bs, s.beers);
      forall k | 0 <= k < |bs|
        ensures Valid(bs[k])
      {
        assert bs[k] in s.beers;
      }
    }
  }

  /** Actions only ever add valid records: a valid list stays valid. */
  lemma StepKeepsValid(s: State, ev: Event)
    requires AllValid(s.beers) && Enabled(s, ev)
    ensures AllValid(Step(s, ev).beers)
  {
    match ev
    case AddRecord(e, w) => AddKeepsValid(s, e, w);
    case DeleteSelected(confirmed, w) => DeleteKeepsValid(s, confirmed, w);
    case _ =>
  }

  /** Every write the action attempts succeeds. */
  predicate SavesSucceed(ev: Event)
  {
    match ev
    case AddRecord(_, w) => w == Written
    case DeleteSelected(_, w) => w == Written
    case _ => true
  }

  /** When every write succeeds, the data file always holds the in-memory list. */
  lemma StepKeepsPersisted(s: State, ev: Event)
    requires s.persisted == Stored(s.beers) && Enabled(s, ev) && SavesSucceed(ev)
    ensures Step(s, ev).persisted == Stored(Step(s, ev).beers)
  {
  }
}
