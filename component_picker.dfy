/**
 * The slash-command typeahead menu: the arrow keys that move the
 * highlighted option round the list, the option list computed from the
 * query, and what selecting an option does.
 */
module ComponentPicker {
  import opened Wrappers
  import Sequences

  /** JavaScript `%`: the remainder takes the sign of the dividend. */
  function JsRem(a: int, n: int): (r: int)
    requires n > 0
    ensures a >= 0 ==> 0 <= r < n
    ensures a < 0 ==> -n < r <= 0
  {
    if a >= 0 then a % n else -((-a) % n)
  }

  /** Below `2n` the remainder is the number itself or the number less `n`. */
  lemma JsRemNear(a: int, n: int)
    requires n > 0
    ensures 0 <= a < n ==> JsRem(a, n) == a
    ensures n <= a < 2 * n ==> JsRem(a, n) == a - n
  {
    if 0 <= a < n {
      ModBelow(a, n);
    } else if n <= a < 2 * n {
      ModWrap(a, n);
    }
  }

  lemma ModBelow(a: int, n: int)
    requires 0 <= a < n
    ensures a % n == a
  {
    assert a == n * (a / n) + a % n;
    assert a / n == 0;
  }

  lemma ModWrap(a: int, n: int)
    requires n <= a < 2 * n
    ensures a % n == a - n
  {
    var q := a / n;
    assert a == n * q + a % n && 0 <= a % n < n;
    if q <= 0 {
      MulBelow(n, q, 0);
    } else if q >= 2 {
      MulBelow(n, 2, q);
    }
  }

  /** Multiplying by a positive number keeps the order. */
  lemma MulBelow(n: int, x: int, y: int)
    requires n > 0 && x <= y
    ensures n * x <= n * y
  {
  }


  /**
   * ArrowUp on a menu of `n` options: the last option when nothing is
   * highlighted, otherwise `(i - 1 + n) % n`. The menu is only shown when
   * it has options, so `n > 0`.
   */
  function ArrowUp(selected: Option<int>, n: int): (r: int)
    requires n > 0
    ensures (selected.Some? ==> 0 <= selected.value < n) ==> 0 <= r < n
  {
    match selected
    case None => n - 1
    case Some(i) => JsRemNear(i - 1 + n, n); JsRem(i - 1 + n, n)
  }

  /** ArrowDown: the first option when nothing is highlighted, otherwise `(i + 1) % n`. */
  function ArrowDown(selected: Option<int>, n: int): (r: int)
    requires n > 0
    ensures (selected.Some? ==> 0 <= selected.value < n) ==> 0 <= r < n
  {
    match selected
    case None => 0
    case Some(i) => JsRemNear(i + 1, n); JsRem(i + 1, n)
  }

  /** From a highlight on the list, both keys step by one, wrapping at either end. */
  lemma ArrowsStayInRange(selected: Option<int>, n: int)
    requires n > 0
    requires selected.Some? ==> 0 <= selected.value < n
    ensures selected == Some(0) ==> ArrowUp(selected, n) == n - 1
    ensures selected == Some(n - 1) ==> ArrowDown(selected, n) == 0
    ensures selected.Some? && selected.value > 0 ==> ArrowUp(selected, n) == selected.value - 1
    ensures selected.Some? && selected.value < n - 1 ==> ArrowDown(selected, n) == selected.value + 1
  {
    if selected.Some? {
      JsRemNear(selected.value - 1 + n, n);
      JsRemNear(selected.value + 1, n);
    }
  }

  /** ArrowDown then ArrowUp, or ArrowUp then ArrowDown, returns to the highlighted option. */
  lemma ArrowsInverse(i: int, n: int)
    requires 0 <= i < n
    ensures ArrowUp(Some(ArrowDown(Some(i), n)), n) == i
    ensures ArrowDown(Some(ArrowUp(Some(i), n)), n) == i
  {
    ArrowsStayInRange(Some(i), n);
    ArrowsStayInRange(Some(ArrowDown(Some(i), n)), n);
    ArrowsStayInRange(Some(ArrowUp(Some(i), n)), n);
  }

  /** ArrowUp from a highlight below the list: the truncating remainder stays negative. */
  lemma ArrowUpFromBelow(i: int, n: int)
    requires n > 0 && i < 1 - n
    ensures ArrowUp(Some(i), n) <= 0
    ensures ArrowUp(Some(i), n) == -((1 - n - i) % n)
  {
  }

  datatype PickerOption = PickerOption(key: string, title: string, keywords: seq<string>)

  /** `regex.test(option.title) || option.keywords.some(k => regex.test(k))`, the regex (case-insensitive, no `g`) abstracted as `matches`. */
  predicate OptionMatches(matches: string -> bool, o: PickerOption) {
    matches(o.title) || exists k :: 0 <= k < |o.keywords| && matches(o.keywords[k])
  }

  /**
   * The menu's options for the current query: the base options for a
   * missing or empty query, otherwise the dynamic options (none when no
   * dynamic function is given) followed by the matching base options.
   */
  function Options(query: Option<string>, base: seq<PickerOption>, dynamic: Option<string -> seq<PickerOption>>,
                   matches: string -> string -> bool): seq<PickerOption>
  {
    match query
    case None => base
    case Some(q) =>
      if q == "" then base
      else
        var extra := if dynamic.Some? then dynamic.value(q) else [];
        extra + Sequences.Filter(base, o => OptionMatches(matches(q), o))
  }

  /** A missing or empty query shows exactly the base options. */
  lemma NoQueryShowsBase(query: Option<string>, base: seq<PickerOption>, dynamic: Option<string -> seq<PickerOption>>,
                         matches: string -> string -> bool)
    requires query.None? || query == Some("")
    ensures Options(query, base, dynamic, matches) == base
  {
  }

  /**
   * A non-empty query shows the dynamic options first, then the base
   * options that match, in their original order; every matching base
   * option is there and nothing else from the base list.
   */
  lemma QueryFiltersBase(q: string, base: seq<PickerOption>, dynamic: Option<string -> seq<PickerOption>>,
                         matches: string -> string -> bool)
    requires q != ""
    ensures var r := Options(Some(q), base, dynamic, matches);
      var extra := if dynamic.Some? then dynamic.value(q) else [];
      var tail := r[|extra|..];
      |extra| <= |r| && r[..|extra|] == extra
      && Sequences.IsSubsequence(tail, base)
      && (forall o :: o in tail ==> OptionMatches(matches(q), o))
      && (forall o :: o in base && OptionMatches(matches(q), o) ==> o in tail)
  {
    var extra := if dynamic.Some? then dynamic.value(q) else [];
    var r := Options(Some(q), base, dynamic, matches);
    var filtered := Sequences.Filter(base, o => OptionMatches(matches(q), o));
    assert r == extra + filtered;
    assert r[|extra|..] == filtered;
    Sequences.FilterSpec(base, o => OptionMatches(matches(q), o));
  }

  // onSelectOption

  datatype Effect = RemoveTrigger | RunOnSelect(key: string, matchingString: string) | CloseMenu

  /**
   * Selecting an option, inside one editor update: the trigger text node is
   * removed if there is one, the option's own action runs with the matched
   * text, and the menu closes.
   */
  function OnSelectOption(option: PickerOption, hasNodeToRemove: bool, matchingString: string): (effects: seq<Effect>)
  {
    (if hasNodeToRemove then [RemoveTrigger] else []) + [RunOnSelect(option.key, matchingString), CloseMenu]
  }

  /** The option's action runs exactly once, after any removal, and the menu is closed last. */
  lemma SelectRunsOnceThenCloses(option: PickerOption, hasNodeToRemove: bool, matchingString: string)
    ensures var e := OnSelectOption(option, hasNodeToRemove, matchingString);
      |e| >= 2 && e[|e| - 1] == CloseMenu && e[|e| - 2] == RunOnSelect(option.key, matchingString)
      && (forall k :: 0 <= k < |e| - 2 ==> e[k] == RemoveTrigger)
      && (RemoveTrigger in e <==> hasNodeToRemove)
  {
    var e := OnSelectOption(option, hasNodeToRemove, matchingString);
    assert !hasNodeToRemove ==> e == [RunOnSelect(option.key, matchingString), CloseMenu];
  }
}
