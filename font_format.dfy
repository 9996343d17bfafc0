/**
 * The bold / italic / underline / strikethrough toggles: the set of active
 * formats is recomputed from the selection, and the state is replaced only
 * when that set differs from the previous one, so an unchanged set keeps
 * the previous object.
 */
module FontFormat {

  /** The four formats the toolbar shows, in order. */
  const Formats: seq<string> := ["bold", "italic", "underline", "strikethrough"]

  /** The formats the selection has, among the four shown. */
  function NewFormats(hasFormat: string -> bool): set<string> {
    set k | 0 <= k < |Formats| && hasFormat(Formats[k]) :: Formats[k]
  }

  /** A shown format is active exactly when the selection has it, and nothing else is ever active. */
  lemma NewFormatsExactly(hasFormat: string -> bool)
    ensures forall f :: f in NewFormats(hasFormat) <==> f in Formats && hasFormat(f)
    ensures NewFormats(hasFormat) <= {"bold", "italic", "underline", "strikethrough"}
  {
    forall f | f in Formats && hasFormat(f)
      ensures f in NewFormats(hasFormat)
    {
      var k :| 0 <= k < |Formats| && Formats[k] == f;
    }
  }

  /** `prev.size === newFormats.size && [...newFormats].every(f => prev.has(f))`. */
  predicate SameFormats(prev: set<string>, next: set<string>) {
    |prev| == |next| && forall f :: f in next ==> f in prev
  }

  /** For finite sets the size-and-containment check is set equality. */
  lemma SameFormatsIsEquality(prev: set<string>, next: set<string>)
    ensures SameFormats(prev, next) <==> prev == next
  {
    if SameFormats(prev, next) {
      assert next <= prev;
      if next != prev {
        var f :| f in prev && f !in next;
        SubsetSmaller(next, prev, f);
      }
    }
  }

  lemma SubsetSmaller(small: set<string>, big: set<string>, f: string)
    requires small <= big && f in big && f !in small
    ensures |small| < |big|
  {
    assert small <= big - {f};
    assert |big - {f}| == |big| - 1;
    SubsetSize(small, big - {f});
  }

  lemma {:induction false} SubsetSize(a: set<string>, b: set<string>)
    requires a <= b
    ensures |a| <= |b|
    decreases |b|
  {
    if a != {} {
      var x :| x in a;
      SubsetSize(a - {x}, b - {x});
    }
  }

  /** The state setter's choice: keep the previous set, or replace it with the new one. */
  datatype Choice = Kept | Replaced(formats: set<string>)

  function Choose(prev: set<string>, next: set<string>): Choice {
    if !SameFormats(prev, next) then Replaced(next) else Kept
  }

  /** `$updateToolbar`: range and table selections recompute the set; any other selection leaves the state alone. */
  function UpdateToolbar(isRangeOrTableSelection: bool, hasFormat: string -> bool, prev: set<string>): (c: Choice)
    ensures isRangeOrTableSelection ==> Resulting(prev, c) == NewFormats(hasFormat)
    ensures !isRangeOrTableSelection ==> c == Kept
  {
    SameFormatsIsEquality(prev, NewFormats(hasFormat));
    if isRangeOrTableSelection then Choose(prev, NewFormats(hasFormat)) else Kept
  }

  function Resulting(prev: set<string>, c: Choice): set<string> {
    match c
    case Kept => prev
    case Replaced(s) => s
  }

  /**
   * After an update the active set is the selection's formats; the previous
   * set is replaced exactly when it differs from them.
   */
  lemma UpdateReflectsSelection(isRangeOrTableSelection: bool, hasFormat: string -> bool, prev: set<string>)
    ensures var c := UpdateToolbar(isRangeOrTableSelection, hasFormat, prev);
      (isRangeOrTableSelection ==> Resulting(prev, c) == NewFormats(hasFormat)
                                   && (c.Replaced? <==> prev != NewFormats(hasFormat)))
      && (!isRangeOrTableSelection ==> c == Kept)
  {
    SameFormatsIsEquality(prev, NewFormats(hasFormat));
  }

  /** A toggle shows as selected exactly when its format is active. */
  predicate IsSelected(active: set<string>, format: string) {
    format in active
  }

  /** What pressing a toggle does: the format command for that format. */
  datatype Command = FormatText(format: string)

  function OnToggle(format: string): Command {
    FormatText(format)
  }

  /**
   * After an update from a range or table selection, each of the four
   * toggles shows as selected exactly when the selection has its format, and
   * pressing it dispatches that format; any other selection leaves every
   * toggle as it was.
   */
  lemma ToggleShowsSelection(isRangeOrTableSelection: bool, hasFormat: string -> bool, prev: set<string>, k: nat)
    requires k < |Formats|
    ensures var active := Resulting(prev, UpdateToolbar(isRangeOrTableSelection, hasFormat, prev));
      (isRangeOrTableSelection ==> (IsSelected(active, Formats[k]) <==> hasFormat(Formats[k])))
      && (!isRangeOrTableSelection ==> (IsSelected(active, Formats[k]) <==> IsSelected(prev, Formats[k])))
    ensures OnToggle(Formats[k]) == FormatText(Formats[k])
  {
    NewFormatsExactly(hasFormat);
  }
}
