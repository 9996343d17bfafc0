/**
 * The colour picker's observable store, `createColorPickerStore`: the
 * current colour, HSV colour, open flag and format, held in a state record
 * that the setters update in place; a set of subscribed listeners; and the
 * three optional change callbacks.
 *
 * Listeners are identified by number and the callbacks by whether they are
 * present; what they do when called is outside the store, so every call the
 * store makes is recorded, in order, in `log`. Colour and HSV values are
 * objects compared with `Object.is`, that is by reference, so they are
 * boxed in classes.
 */
module ColorStore {
  import opened Wrappers
  import opened ColorValues

  /** An HSV colour; its components come from floating-point maths that is not modelled. */
  datatype Hsv = Hsv(h: real, s: real, v: real, a: Alpha)

  /** A `ColorValue` object. */
  class ColorBox {
    const value: Color

    constructor (value: Color)
      ensures this.value == value
    {
      this.value := value;
    }
  }

  /** An `HSVColorValue` object. */
  class HsvBox {
    const value: Hsv

    constructor (value: Hsv)
      ensures this.value == value
    {
      this.value := value;
    }
  }

  /** A call the store makes: a change callback with its argument, or a listener. */
  datatype Event = ColorChanged(text: ColorText) | OpenChanged(open: bool) | FormatChanged(format: Format) | Listener(id: nat)

  /** What `getState()` returns, by value. */
  datatype Snapshot = Snapshot(color: Color, hsv: Hsv, open: bool, format: Format)

  /** `getState()` when there is no state record. */
  const DefaultSnapshot := Snapshot(Black, Hsv(0.0, 0.0, 0.0, Finite(1.0)), false, Hex)

  predicate NoDuplicates(s: seq<nat>) {
    forall i, j :: 0 <= i < j < |s| ==> s[i] != s[j]
  }

  /** The calls `notify()` makes: every listener once, in subscription order. */
  function Notifications(listeners: seq<nat>): seq<Event> {
    seq(|listeners|, k requires 0 <= k < |listeners| => Listener(listeners[k]))
  }

  /** `Set.prototype.add` on the listener set kept in insertion order. */
  function Added(s: seq<nat>, x: nat): (r: seq<nat>)
    ensures NoDuplicates(s) ==> NoDuplicates(r)
    ensures forall y :: y in r <==> y in s || y == x
  {
    if x in s then s else s + [x]
  }

  /** `Set.prototype.delete`: every other member stays, in order. */
  function Without(s: seq<nat>, x: nat): (r: seq<nat>)
    ensures forall y :: y in r <==> y in s && y != x
    ensures |r| <= |s|
  {
    if s == [] then []
    else if s[0] == x then Without(s[1..], x)
    else [s[0]] + Without(s[1..], x)
  }

  lemma {:induction false} WithoutKeepsDistinct(s: seq<nat>, x: nat)
    requires NoDuplicates(s)
    ensures NoDuplicates(Without(s, x))
  {
    if s != [] {
      WithoutKeepsDistinct(s[1..], x);
      assert s[0] !in s[1..];
    }
  }

  lemma {:induction false} WithoutAbsent(s: seq<nat>, x: nat)
    requires x !in s
    ensures Without(s, x) == s
  {
    if s != [] {
      WithoutAbsent(s[1..], x);
      assert [s[0]] + s[1..] == s;
    }
  }

  /** Unsubscribing a listener that was just subscribed restores the set. */
  lemma UnsubscribeUndoesSubscribe(s: seq<nat>, x: nat)
    requires x !in s
    ensures Without(Added(s, x), x) == s
  {
    WithoutDropsLast(s, x);
    WithoutAbsent(s, x);
  }

  lemma {:induction false} WithoutDropsLast(s: seq<nat>, x: nat)
    ensures Without(s + [x], x) == Without(s, x)
  {
    if s == [] {
      assert [] + [x] == [x] && [x][1..] == [];
    } else {
      assert (s + [x])[1..] == s[1..] + [x];
      WithoutDropsLast(s[1..], x);
    }
  }

  class Store {
    /** Whether `stateRef.current` holds a state record. */
    var hasState: bool
    var color: ColorBox
    var hsv: HsvBox
    var open: bool
    var format: Format
    /** The listener set, in insertion order. */
    var listeners: seq<nat>
    /** Every callback and listener call made so far. */
    var log: seq<Event>

    /** Which of `onColorChange`, `onOpenChange`, `onFormatChange` were supplied. */
    const hasColorCallback: bool
    const hasOpenCallback: bool
    const hasFormatCallback: bool
    /** `hsvToRgb`, floating-point maths that is not modelled. */
    const hsvToRgb: Hsv -> Color
    /** `Number.prototype.toString`, used by `colorToString` for alpha. */
    const showNumber: real -> string

    ghost predicate Valid()
      reads this
    {
      NoDuplicates(listeners)
    }

    /** `getState()`. */
    function GetState(): Snapshot
      reads this
    {
      if hasState then Snapshot(color.value, hsv.value, open, format) else DefaultSnapshot
    }

    constructor (initial: Option<Snapshot>, hasColorCallback: bool, hasOpenCallback: bool, hasFormatCallback: bool,
                 hsvToRgb: Hsv -> Color, showNumber: real -> string)
      ensures Valid() && listeners == [] && log == []
      ensures hasState == initial.Some? && (initial.Some? ==> GetState() == initial.value)
      ensures this.hasColorCallback == hasColorCallback && this.hasOpenCallback == hasOpenCallback
      ensures this.hasFormatCallback == hasFormatCallback
      ensures this.hsvToRgb == hsvToRgb && this.showNumber == showNumber
    {
      var s := initial.GetOr(DefaultSnapshot);
      hasState := initial.Some?;
      color := new ColorBox(s.color);
      hsv := new HsvBox(s.hsv);
      open := s.open;
      format := s.format;
      listeners := [];
      log := [];
      this.hasColorCallback := hasColorCallback;
      this.hasOpenCallback := hasOpenCallback;
      this.hasFormatCallback := hasFormatCallback;
      this.hsvToRgb := hsvToRgb;
      this.showNumber := showNumber;
    }

    /** `subscribe(cb)`: adds `cb` to the set; `Unsubscribe` is the function it returns. */
    method Subscribe(cb: nat)
      requires Valid()
      modifies this
      ensures Valid()
      ensures listeners == Added(old(listeners), cb)
      ensures hasState == old(hasState) && color == old(color) && hsv == old(hsv)
      ensures open == old(open) && format == old(format) && log == old(log)
    {
      if cb !in listeners {
        listeners := listeners + [cb];
      }
    }

    /** The function returned by `subscribe(cb)`: deletes `cb` and nothing else. */
    method Unsubscribe(cb: nat)
      requires Valid()
      modifies this
      ensures Valid()
      ensures listeners == Without(old(listeners), cb)
      ensures hasState == old(hasState) && color == old(color) && hsv == old(hsv)
      ensures open == old(open) && format == old(format) && log == old(log)
    {
      WithoutKeepsDistinct(listeners, cb);
      listeners := Without(listeners, cb);
    }

    /** `notify()`: calls every listener once, in insertion order. */
    method Notify()
      modifies this
      ensures log == old(log) + Notifications(listeners)
      ensures listeners == old(listeners) && hasState == old(hasState) && color == old(color) && hsv == old(hsv)
      ensures open == old(open) && format == old(format)
    {
      for i := 0 to |listeners|
        invariant listeners == old(listeners) && hasState == old(hasState) && color == old(color) && hsv == old(hsv)
        invariant log == old(log) + Notifications(listeners[..i])
        invariant open == old(open) && format == old(format)
      {
        assert Notifications(listeners[..i + 1]) == Notifications(listeners[..i]) + [Listener(listeners[i])];
        log := log + [Listener(listeners[i])];
      }
      assert listeners[..|listeners|] == listeners;
    }

    /**
     * `setColor(value)`: nothing without state or when `value` is the current
     * colour object; otherwise stores it, reports it printed in the current
     * format, and notifies.
     */
    method SetColor(value: ColorBox)
      modifies this
      ensures listeners == old(listeners) && hasState == old(hasState) && hsv == old(hsv)
      ensures open == old(open) && format == old(format)
      ensures !old(hasState) || old(color) == value ==> color == old(color) && log == old(log)
      ensures old(hasState) && old(color) != value ==>
        color == value
        && log == old(log)
                  + (if hasColorCallback then [ColorChanged(ColorToString(value.value, Some(old(format)), showNumber))] else [])
                  + Notifications(listeners)
    {
      if !hasState || color == value {
        return;
      }
      var prevFormat := format;
      color := value;
      if hasColorCallback {
        log := log + [ColorChanged(ColorToString(value.value, Some(prevFormat), showNumber))];
      }
      Notify();
    }

    /** `setHsv(value)`: as `setColor`, reporting the colour `hsvToRgb` gives for `value`. */
    method SetHsv(value: HsvBox)
      modifies this
      ensures listeners == old(listeners) && hasState == old(hasState) && color == old(color)
      ensures open == old(open) && format == old(format)
      ensures !old(hasState) || old(hsv) == value ==> hsv == old(hsv) && log == old(log)
      ensures old(hasState) && old(hsv) != value ==>
        hsv == value
        && log == old(log)
                  + (if hasColorCallback then [ColorChanged(ColorToString(hsvToRgb(value.value), Some(old(format)), showNumber))] else [])
                  + Notifications(listeners)
    {
      if !hasState || hsv == value {
        return;
      }
      var prevFormat := format;
      hsv := value;
      if hasColorCallback {
        log := log + [ColorChanged(ColorToString(hsvToRgb(value.value), Some(prevFormat), showNumber))];
      }
      Notify();
    }

    /** `setOpen(value)`: nothing without state or when unchanged; otherwise stores, reports and notifies. */
    method SetOpen(value: bool)
      modifies this
      ensures listeners == old(listeners) && hasState == old(hasState) && color == old(color) && hsv == old(hsv)
      ensures format == old(format)
      ensures !old(hasState) || old(open) == value ==> open == old(open) && log == old(log)
      ensures old(hasState) && old(open) != value ==>
        open == value
        && log == old(log) + (if hasOpenCallback then [OpenChanged(value)] else []) + Notifications(listeners)
    {
      if !hasState || open == value {
        return;
      }
      open := value;
      if hasOpenCallback {
        log := log + [OpenChanged(value)];
      }
      Notify();
    }

    /** `setFormat(value)`: nothing without state or when unchanged; otherwise stores, reports and notifies. */
    method SetFormat(value: Format)
      modifies this
      ensures listeners == old(listeners) && hasState == old(hasState) && color == old(color) && hsv == old(hsv)
      ensures open == old(open)
      ensures !old(hasState) || old(format) == value ==> format == old(format) && log == old(log)
      ensures old(hasState) && old(format) != value ==>
        format == value
        && log == old(log) + (if hasFormatCallback then [FormatChanged(value)] else []) + Notifications(listeners)
    {
      if !hasState || format == value {
        return;
      }
      format := value;
      if hasFormatCallback {
        log := log + [FormatChanged(value)];
      }
      Notify();
    }

    /**
     * The picker root's effect on a controlled `value`: reads it as hex with
     * the current alpha and sets both colour and HSV. Both are new objects,
     * so with state present the listeners are notified twice even when the
     * value is unchanged.
     */
    method SyncValue(value: string, rgbToHsv: Color -> Hsv)
      modifies this
      ensures listeners == old(listeners) && hasState == old(hasState) && open == old(open) && format == old(format)
      ensures old(hasState) ==>
        var c := HexToRgb(value, Some(old(color.value.a)));
        color.value == c && hsv.value == rgbToHsv(c)
        && log == old(log)
                  + (if hasColorCallback then [ColorChanged(ColorToString(c, Some(format), showNumber))] else [])
                  + Notifications(listeners)
                  + (if hasColorCallback then [ColorChanged(ColorToString(hsvToRgb(rgbToHsv(c)), Some(format), showNumber))] else [])
                  + Notifications(listeners)
      ensures !old(hasState) ==> color == old(color) && hsv == old(hsv) && log == old(log)
    {
      var current := GetState();
      var c := HexToRgb(value, Some(current.color.a));
      var box := new ColorBox(c);
      SetColor(box);
      var hsvBox := new HsvBox(rgbToHsv(c));
      SetHsv(hsvBox);
    }
  }

  /** The state the picker root starts from: colour from `value ?? defaultValue`, closed and hex by default. */
  function InitialState(value: Option<string>, defaultValue: Option<string>, format: Option<Format>,
                        defaultFormat: Option<Format>, openProp: Option<bool>, defaultOpen: Option<bool>,
                        rgbToHsv: Color -> Hsv): Snapshot
  {
    var c := InitialColor(value, defaultValue);
    Snapshot(c, rgbToHsv(c), openProp.GetOr(defaultOpen.GetOr(false)), format.GetOr(defaultFormat.GetOr(Hex)))
  }

  /** Without props the picker starts black, closed and in hex; controlled props win over defaults. */
  lemma InitialStateDefaults(rgbToHsv: Color -> Hsv, v: string, d: string, f: Format, df: Format, o: bool, dopen: bool)
    ensures var s := InitialState(None, None, None, None, None, None, rgbToHsv);
      s.color == Black && !s.open && s.format == Hex
    ensures var s := InitialState(Some(v), Some(d), Some(f), Some(df), Some(o), Some(dopen), rgbToHsv);
      s.color == InitialColor(Some(v), None) && s.open == o && s.format == f
  {
    InitialColorDefaultIsBlack();
  }
}
