/**
 * The colon-triggered emoji typeahead: one option per emoji, the
 * suggestions for a query (at most fifteen), and what selecting one does.
 *
 * The query becomes a regular expression with the global flag, and one
 * expression object is reused for every `test` call of a filtering pass, so
 * each call starts searching where the previous successful one ended and a
 * failed call starts the next one from 0. The regular-expression search is
 * abstract: `find(s, from)` is the end of the first match in `s` starting
 * at `from` or later.
 */
module EmojiPicker {
  import opened Wrappers
  import Sequences

  const MaxSuggestionCount: nat := 15

  datatype Emoji = Emoji(emoji: string, description: string, category: string, aliases: seq<string>, tags: seq<string>)

  /** A menu option; the title is `undefined` for an emoji without aliases. */
  datatype EmojiOption = EmojiOption(title: Option<string>, emoji: string, keywords: seq<string>)

  function ToOption(e: Emoji): EmojiOption {
    EmojiOption(if e.aliases == [] then None else Some(e.aliases[0]), e.emoji, e.aliases + e.tags)
  }

  function EmojiOptions(emojis: seq<Emoji>): (options: seq<EmojiOption>)
    ensures |options| == |emojis|
  {
    seq(|emojis|, k requires 0 <= k < |emojis| => ToOption(emojis[k]))
  }

  /** Every option is titled by its emoji's first alias, and its keywords are the aliases then the tags. */
  lemma OptionsFromEmojis(emojis: seq<Emoji>, k: nat)
    requires k < |emojis| && emojis[k].aliases != []
    ensures var o := EmojiOptions(emojis)[k];
      o.title == Some(emojis[k].aliases[0]) && o.emoji == emojis[k].emoji
      && o.keywords[..|emojis[k].aliases|] == emojis[k].aliases
      && o.keywords[|emojis[k].aliases|..] == emojis[k].tags
  {
  }

  type Find = (string, nat) -> Option<nat>

  /** The text a title is tested as: `undefined` when there is none. */
  function TitleText(o: EmojiOption): string {
    o.title.GetOr("undefined")
  }

  datatype Tested = Tested(found: bool, lastIndex: nat)

  /** `regex.test(s)` for a global expression whose `lastIndex` is `lastIndex`. */
  function Test(find: Find, s: string, lastIndex: nat): Tested {
    if lastIndex > |s| then Tested(false, 0)
    else match find(s, lastIndex)
      case None => Tested(false, 0)
      case Some(end) => Tested(true, end)
  }

  /** `keywords.some(k => regex.test(k))`, threading `lastIndex`. */
  function SomeKeyword(find: Find, keywords: seq<string>, lastIndex: nat): Tested {
    if keywords == [] then Tested(false, lastIndex)
    else
      var t := Test(find, keywords[0], lastIndex);
      if t.found then t else SomeKeyword(find, keywords[1..], t.lastIndex)
  }

  /** The filter's predicate on one option: the title, then the keywords. */
  function Keep(find: Find, o: EmojiOption, lastIndex: nat): Tested {
    var t := Test(find, TitleText(o), lastIndex);
    if t.found then t else SomeKeyword(find, o.keywords, t.lastIndex)
  }

  /** `options.filter(...)` with the expression's state carried from option to option. */
  function FilterFrom(find: Find, options: seq<EmojiOption>, lastIndex: nat): (r: seq<EmojiOption>)
    ensures Sequences.IsSubsequence(r, options)
  {
    if options == [] then []
    else
      var t := Keep(find, options[0], lastIndex);
      var rest := FilterFrom(find, options[1..], t.lastIndex);
      if t.found then [options[0]] + rest
      else
        Sequences.NotHeadSubsequence(rest, options);
        rest
  }

  /** `filteredOptions`: `query` is the search of the query's expression, none for a null query. */
  function FilteredOptions(options: seq<EmojiOption>, query: Option<Find>): (r: seq<EmojiOption>)
    ensures |r| <= MaxSuggestionCount
  {
    var all := match query
      case None => options
      case Some(find) => FilterFrom(find, options, 0);
    all[..if |all| < MaxSuggestionCount then |all| else MaxSuggestionCount]
  }

  /**
   * The suggestions are always options from the list in their order, and
   * each matches the query; a null query gives the first fifteen.
   */
  lemma SuggestionsBounded(options: seq<EmojiOption>, query: Option<Find>)
    ensures Sequences.IsSubsequence(FilteredOptions(options, query), options)
    ensures query.None? ==> FilteredOptions(options, query) == options[..if |options| < 15 then |options| else 15]
    ensures query.Some? && FromStartFinds(query.value) ==>
      forall o :: o in FilteredOptions(options, query) ==> OptionMatches(query.value, o)
  {
    var all := match query
      case None => options
      case Some(find) => FilterFrom(find, options, 0);
    var n := if |all| < MaxSuggestionCount then |all| else MaxSuggestionCount;
    Sequences.PrefixSubsequence(all, n);
    if query.None? {
      Sequences.PrefixSubsequence(options, n);
    } else {
      Sequences.SubsequenceTrans(all[..n], all, options);
      if FromStartFinds(query.value) {
        FilterFromSound(query.value, options, 0);
        assert forall o :: o in all[..n] ==> o in all;
      }
    }
  }

  // Matching from the start of each text

  /** `s` has a match when searched from its start. */
  predicate Matches(find: Find, s: string) {
    find(s, 0).Some?
  }

  /** The title or some keyword matches. */
  predicate OptionMatches(find: Find, o: EmojiOption) {
    Matches(find, TitleText(o)) || exists k :: 0 <= k < |o.keywords| && Matches(find, o.keywords[k])
  }

  /** A search that finds a match from some position also finds one from the start, as every regular-expression search does. */
  ghost predicate FromStartFinds(find: Find) {
    forall s: string, from: nat :: find(s, from).Some? ==> find(s, 0).Some?
  }

  /** A keyword found from any `lastIndex` matches from its start. */
  lemma {:induction false} SomeKeywordSound(find: Find, keywords: seq<string>, lastIndex: nat)
    requires FromStartFinds(find)
    ensures SomeKeyword(find, keywords, lastIndex).found ==>
      exists k :: 0 <= k < |keywords| && Matches(find, keywords[k])
  {
    if keywords != [] {
      var t := Test(find, keywords[0], lastIndex);
      if t.found {
        assert Matches(find, keywords[0]);
      } else if SomeKeyword(find, keywords[1..], t.lastIndex).found {
        SomeKeywordSound(find, keywords[1..], t.lastIndex);
        var k :| 0 <= k < |keywords[1..]| && Matches(find, keywords[1..][k]);
        assert keywords[1..][k] == keywords[k + 1];
      }
    }
  }

  /** An option the filter keeps matches the query, whatever `lastIndex` it is tested from. */
  lemma KeepSound(find: Find, o: EmojiOption, lastIndex: nat)
    requires FromStartFinds(find)
    ensures Keep(find, o, lastIndex).found ==> OptionMatches(find, o)
  {
    var t := Test(find, TitleText(o), lastIndex);
    if !t.found {
      SomeKeywordSound(find, o.keywords, t.lastIndex);
    }
  }

  /** Every option the stateful filter keeps matches the query. */
  lemma {:induction false} FilterFromSound(find: Find, options: seq<EmojiOption>, lastIndex: nat)
    requires FromStartFinds(find)
    ensures forall o :: o in FilterFrom(find, options, lastIndex) ==> OptionMatches(find, o)
  {
    if options != [] {
      var t := Keep(find, options[0], lastIndex);
      KeepSound(find, options[0], lastIndex);
      FilterFromSound(find, options[1..], t.lastIndex);
    }
  }

  /** After a failed test the keywords are all tested from the start. */
  lemma {:induction false} SomeKeywordFromStart(find: Find, keywords: seq<string>)
    requires FromStartFinds(find)
    ensures SomeKeyword(find, keywords, 0).found <==> exists k :: 0 <= k < |keywords| && Matches(find, keywords[k])
  {
    if keywords != [] {
      SomeKeywordFromStart(find, keywords[1..]);
      if !Matches(find, keywords[0]) {
        forall k | 0 <= k < |keywords| && Matches(find, keywords[k])
          ensures exists j :: 0 <= j < |keywords[1..]| && Matches(find, keywords[1..][j])
        {
          assert keywords[1..][k - 1] == keywords[k];
        }
      }
    }
  }

  /** An option made from an emoji with aliases: its first keyword is its title. */
  predicate TitleIsFirstKeyword(o: EmojiOption) {
    o.title.Some? && o.keywords != [] && o.keywords[0] == o.title.value
  }

  /** Whatever the state left by the previous option, such an option is kept exactly when it matches. */
  lemma KeepIsMatch(find: Find, o: EmojiOption, lastIndex: nat)
    requires FromStartFinds(find) && TitleIsFirstKeyword(o)
    ensures Keep(find, o, lastIndex).found <==> OptionMatches(find, o)
  {
    var t := Test(find, TitleText(o), lastIndex);
    SomeKeywordFromStart(find, o.keywords);
    if t.found {
      assert find(TitleText(o), lastIndex).Some?;
    } else {
      assert Matches(find, TitleText(o)) ==> Matches(find, o.keywords[0]);
    }
  }

  /**
   * For options built from emojis that all have aliases, the global flag's
   * state is harmless: the suggestions are the first fifteen options whose
   * title or some keyword matches, in order.
   */
  lemma {:induction false} FilterIsStateless(find: Find, options: seq<EmojiOption>, lastIndex: nat)
    requires FromStartFinds(find)
    requires forall k :: 0 <= k < |options| ==> TitleIsFirstKeyword(options[k])
    ensures FilterFrom(find, options, lastIndex) == Sequences.Filter(options, o => OptionMatches(find, o))
  {
    if options != [] {
      var t := Keep(find, options[0], lastIndex);
      KeepIsMatch(find, options[0], lastIndex);
      FilterIsStateless(find, options[1..], t.lastIndex);
    }
  }

  lemma EmojiOptionsHaveTitles(emojis: seq<Emoji>)
    requires forall k :: 0 <= k < |emojis| ==> emojis[k].aliases != []
    ensures forall k :: 0 <= k < |emojis| ==> TitleIsFirstKeyword(EmojiOptions(emojis)[k])
  {
  }

  /** The suggestions for a query, for an emoji list in which every emoji has an alias. */
  lemma QuerySuggestions(emojis: seq<Emoji>, find: Find)
    requires FromStartFinds(find)
    requires forall k :: 0 <= k < |emojis| ==> emojis[k].aliases != []
    ensures var options := EmojiOptions(emojis);
      var matching := Sequences.Filter(options, o => OptionMatches(find, o));
      FilteredOptions(options, Some(find)) == matching[..if |matching| < 15 then |matching| else 15]
  {
    EmojiOptionsHaveTitles(emojis);
    FilterIsStateless(find, EmojiOptions(emojis), 0);
  }

  // onSelectOption

  datatype Effect = RemoveTrigger | InsertText(text: string) | CloseMenu

  /** Nothing unless the selection is a range; then the trigger text goes, the emoji is inserted and the menu closes. */
  function OnSelectOption(option: EmojiOption, isRangeSelection: bool, hasNodeToRemove: bool): (effects: seq<Effect>) {
    if !isRangeSelection then []
    else (if hasNodeToRemove then [RemoveTrigger] else []) + [InsertText(option.emoji), CloseMenu]
  }

  /** The emoji is inserted exactly once, only into a range selection, and only then is the menu closed. */
  lemma SelectInsertsEmoji(option: EmojiOption, isRangeSelection: bool, hasNodeToRemove: bool)
    ensures var e := OnSelectOption(option, isRangeSelection, hasNodeToRemove);
      (e == [] <==> !isRangeSelection)
      && (isRangeSelection ==> e[|e| - 2..] == [InsertText(option.emoji), CloseMenu]
                               && (RemoveTrigger in e <==> hasNodeToRemove))
  {
    var e := OnSelectOption(option, isRangeSelection, hasNodeToRemove);
    if isRangeSelection && !hasNodeToRemove {
      assert e == [InsertText(option.emoji), CloseMenu];
    }
  }
}
