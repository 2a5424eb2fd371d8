/**
 Beer records and the validation the add dialog applies before a record
 joins the catalogue.
 */
module Records {
  import opened Wrappers
  import Text

  /**
   One catalogue entry. On disk it is a JSON object with the keys
   `Название` (name), `Тип` (kind), `Цена` (price) and `Приветствие`
   (greeting); every value is free text, the price included.
   */
  datatype Beer = Beer(name: string, kind: string, price: string, greeting: string)

  /** The four fields of a record, in the order the add dialog lists them. */
  datatype Field = Name | Kind | Price | Greeting
  {
    /** Position of the field in the dialog. */
    function Rank(): nat
    {
      match this
      case Name => 0
      case Kind => 1
      case Price => 2
      case Greeting => 3
    }
  }

  /** The dialog's field order. */
  const Fields: seq<Field> := [Name, Kind, Price, Greeting]

  /** The raw, unstripped contents of the add dialog's four entry widgets. */
  datatype Entries = Entries(name: string, kind: string, price: string, greeting: string)
  {
    function Get(f: Field): string
    {
      match f
      case Name => name
      case Kind => kind
      case Price => price
      case Greeting => greeting
    }
  }

  /** The entry for `f` is empty once stripped (see `Text.Strip`). */
  predicate Blank(e: Entries, f: Field)
  {
    Text.AllSpace(e.Get(f))
  }

  /** No entry of the dialog is blank. */
  predicate Filled(e: Entries)
  {
    !Blank(e, Name) && !Blank(e, Kind) && !Blank(e, Price) && !Blank(e, Greeting)
  }

  /** Index in `fs` of the first field whose entry is blank, if any. */
  function FirstBlank(e: Entries, fs: seq<Field>): (r: Option<nat>)
    ensures r.None? <==> forall k :: 0 <= k < |fs| ==> !Blank(e, fs[k])
    ensures r.Some? ==> r.value < |fs| && Blank(e, fs[r.value])
    ensures r.Some? ==> forall k :: 0 <= k < r.value ==> !Blank(e, fs[k])
  {
    if fs == [] then None
    else if Blank(e, fs[0]) then Some(0)
    else match FirstBlank(e, fs[1..])
      case None => None
      case Some(i) => Some(i + 1)
  }

  /** Non-empty text with no whitespace at either end: what stripping a non-blank entry yields. */
  predicate Trimmed(t: string)
  {
    t != [] && !Text.IsSpace(t[0]) && !Text.IsSpace(t[|t| - 1])
  }

  /** A record as the add dialog can create it: every field stripped and non-empty. */
  predicate Valid(b: Beer)
  {
    Trimmed(b.name) && Trimmed(b.kind) && Trimmed(b.price) && Trimmed(b.greeting)
  }

  /** Trimmed text is exactly the text that is non-empty and unchanged by stripping. */
  lemma TrimmedIffStripFixed(t: string)
    ensures Trimmed(t) <==> t != [] && Text.Strip(t) == t
  {
    if Trimmed(t) {
      Text.StripPadded([], t, []);
      assert [] + t + [] == t;
    }
  }

  /**
   The inner `save` of the add dialog: the fields are checked in dialog
   order and the first blank one is reported; otherwise the record holds
   the stripped text of each entry.
   */
  function Validate(e: Entries): (r: Result<Beer, Field>)
    ensures r.Success? <==> Filled(e)
    ensures r.Success? ==> r.value == Beer(Text.Strip(e.name), Text.Strip(e.kind),
                                           Text.Strip(e.price), Text.Strip(e.greeting))
    ensures r.Failure? ==> Blank(e, r.error)
    ensures r.Failure? ==> r.error in Fields
    ensures r.Failure? ==> forall k :: 0 <= k < r.error.Rank() ==> !Blank(e, Fields[k])
  {
    match FirstBlank(e, Fields)
    case Some(i) =>
      assert Fields[i].Rank() == i;
      Failure(Fields[i])
    case None =>
      assert Fields[0] == Name && Fields[1] == Kind && Fields[2] == Price && Fields[3] == Greeting;
      Success(Beer(Text.Strip(e.name), Text.Strip(e.kind), Text.Strip(e.price), Text.Strip(e.greeting)))
  }

  /** Every record the dialog accepts is valid. */
  lemma ValidateGivesValid(e: Entries)
    requires Validate(e).Success?
    ensures Valid(Validate(e).value)
  {
    assert !Blank(e, Name) && !Blank(e, Kind) && !Blank(e, Price) && !Blank(e, Greeting);
  }

  /** Typing a valid record's fields into the dialog yields that record again. */
  lemma ValidateRoundTrip(b: Beer)
    requires Valid(b)
    ensures Validate(Entries(b.name, b.kind, b.price, b.greeting)) == Success(b)
  {
    TrimmedIffStripFixed(b.name);
    TrimmedIffStripFixed(b.kind);
    TrimmedIffStripFixed(b.price);
    TrimmedIffStripFixed(b.greeting);
  }
}
