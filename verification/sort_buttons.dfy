/**
 * The four sort buttons: the request each one issues and the active mark
 * `updateSortButtonStates` puts on at most one of them.
 */
module SortButtons {
  import opened Products
  import opened Sorting

  datatype SortButton = PriceAsc | PriceDesc | TitleAsc | TitleDesc

  /** The buttons in the order `updateSortButtonStates` lists them. */
  const Buttons: seq<SortButton> := [PriceAsc, PriceDesc, TitleAsc, TitleDesc]

  /** The `handleSort(field, direction)` call wired to each button. */
  function Request(b: SortButton): (config: SortConfig)
    ensures config.field.Some?
  {
    match b
    case PriceAsc => SortConfig(Some(Price), Asc)
    case PriceDesc => SortConfig(Some(Price), Desc)
    case TitleAsc => SortConfig(Some(Title), Asc)
    case TitleDesc => SortConfig(Some(Title), Desc)
  }

  /** The button `updateSortButtonStates` marks for a configuration: the one
      for the field and direction, or none before any sort. */
  function ActiveButton(config: SortConfig): (b: Option<SortButton>)
    ensures b.None? <==> config.field.None?
  {
    match config.field
    case None => None
    case Some(Price) => Some(if config.direction == Asc then PriceAsc else PriceDesc)
    case Some(Title) => Some(if config.direction == Asc then TitleAsc else TitleDesc)
  }

  /** After a click the clicked button is the active one; and the active
      button, clicked again, issues the configuration in force. */
  lemma ActiveButtonRoundTrip(b: SortButton, config: SortConfig)
    ensures ActiveButton(Request(b)) == Some(b)
    ensures config.field.Some? ==> Request(ActiveButton(config).value) == config
  {
  }

  function CountActive(marks: seq<bool>): (n: nat)
    ensures n <= |marks|
  {
    if marks == [] then 0 else (if marks[0] then 1 else 0) + CountActive(marks[1..])
  }

  /** The `active` class of each of the four buttons, in `Buttons` order:
      exactly one is set once a field is chosen, none before. */
  function ButtonMarks(config: SortConfig): (marks: seq<bool>)
    ensures |marks| == |Buttons|
    ensures forall i :: 0 <= i < |Buttons| ==> (marks[i] <==> ActiveButton(config) == Some(Buttons[i]))
    ensures CountActive(marks) == if config.field.Some? then 1 else 0
  {
    var a := ActiveButton(config);
    var marks := [a == Some(PriceAsc), a == Some(PriceDesc), a == Some(TitleAsc), a == Some(TitleDesc)];
    assert marks[1..][1..] == marks[2..] && marks[2..][1..] == marks[3..] && marks[3..][1..] == [];
    assert CountActive(marks) == CountActive(marks[..1]) + CountActive(marks[1..2]) + CountActive(marks[2..3]) + CountActive(marks[3..]) by {
      assert CountActive(marks) == (if marks[0] then 1 else 0) + CountActive(marks[1..]);
      assert CountActive(marks[1..]) == (if marks[1] then 1 else 0) + CountActive(marks[2..]);
      assert CountActive(marks[2..]) == (if marks[2] then 1 else 0) + CountActive(marks[3..]);
      assert marks[..1][1..] == [] && marks[1..2][1..] == [] && marks[2..3][1..] == [];
    }
    marks
  }
}
