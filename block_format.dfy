/**
 * The block-format drop-down: the nine block types it offers, the action
 * chosen for a selected key (with the rule that re-selecting the active
 * list type turns the block back into a paragraph), what that action does
 * to the editor, and the toolbar's sync of the active block type from the
 * selection.
 */
module BlockFormat {
  import opened Wrappers

  /** The keys of `blockTypeToBlockName`. */
  const BlockKeys: set<string> := {"paragraph", "h1", "h2", "h3", "number", "bullet", "check", "code", "quote"}

  const ListKeys: set<string> := {"bullet", "number", "check"}

  datatype ListKind = Bullet | Number | Check

  function ListKey(k: ListKind): (key: string)
    ensures key in ListKeys
  {
    match k
    case Bullet => "bullet"
    case Number => "number"
    case Check => "check"
  }

  datatype Block = Paragraph | Heading(tag: string) | Quote | Code

  /** What the drop-down does for a selected key. */
  datatype Action =
    | NoAction
    | SetBlocksType(block: Block)   // an editor update that converts the selected blocks
    | InsertList(kind: ListKind)    // a list command dispatched to the editor
    | CodeBlock                     // the code case's editor update

  /**
   * `handleSelectionChange` for the first selected key (`None` when the
   * selection is empty): nothing for no key or an empty one; a paragraph when the
   * key is the active list type; otherwise the key's own action, and
   * nothing for a key the switch does not list.
   */
  function HandleSelectionChange(first: Option<string>, blockType: string): (a: Action)
    ensures first.None? ==> a == NoAction
    ensures a != NoAction <==> first.Some? && first.value in BlockKeys
    ensures first == Some("paragraph") ==> a == SetBlocksType(Paragraph)
    ensures first.Some? && first.value in {"h1", "h2", "h3"} ==> a == SetBlocksType(Heading(first.value))
    ensures first == Some("quote") ==> a == SetBlocksType(Quote)
  {
    if first.None? || first.value == "" then NoAction
    else
      var selected := first.value;
      if selected == blockType && selected in ListKeys then SetBlocksType(Paragraph)
      else if selected == "paragraph" then SetBlocksType(Paragraph)
      else if selected in {"h1", "h2", "h3"} then SetBlocksType(Heading(selected))
      else if selected == "bullet" then InsertList(Bullet)
      else if selected == "number" then InsertList(Number)
      else if selected == "check" then InsertList(Check)
      else if selected == "quote" then SetBlocksType(Quote)
      else if selected == "code" then CodeBlock
      else NoAction
  }

  /** Re-selecting the active list type toggles it off; any other selection of the active type re-applies it. */
  lemma ListToggle(selected: string, blockType: string)
    requires selected == blockType
    ensures selected in ListKeys ==> HandleSelectionChange(Some(selected), blockType) == SetBlocksType(Paragraph)
    ensures selected in {"h1", "h2", "h3"} ==> HandleSelectionChange(Some(selected), blockType) == SetBlocksType(Heading(selected))
    ensures selected == "quote" ==> HandleSelectionChange(Some(selected), blockType) == SetBlocksType(Quote)
    ensures selected == "code" ==> HandleSelectionChange(Some(selected), blockType) == CodeBlock
  {
  }

  /** A list key that is not the active type inserts that list. */
  lemma ListKeyInsertsList(k: ListKind, blockType: string)
    requires blockType != ListKey(k)
    ensures HandleSelectionChange(Some(ListKey(k)), blockType) == InsertList(k)
  {
  }

  /** What an action does in the editor. */
  datatype Effect =
    | Unchanged
    | ConvertBlocks(block: Block)
    | DispatchList(kind: ListKind)
    | InsertCodeWithText            // a code node is inserted, then the selected text re-inserted as raw text

  /** The editor update of an action: conversions need a range selection; list commands are dispatched regardless. */
  function Perform(action: Action, isRangeSelection: bool, isCollapsed: bool): (e: Effect)
    ensures e.DispatchList? <==> action.InsertList?
    ensures !isRangeSelection ==> e == Unchanged || e.DispatchList?
    ensures action == NoAction ==> e == Unchanged
  {
    match action
    case NoAction => Unchanged
    case SetBlocksType(b) => if isRangeSelection then ConvertBlocks(b) else Unchanged
    case InsertList(k) => DispatchList(k)
    case CodeBlock =>
      if !isRangeSelection then Unchanged
      else if isCollapsed then ConvertBlocks(Code)
      else InsertCodeWithText
  }

  /** Code converts a collapsed selection's block and wraps a non-collapsed selection's text in a new code node. */
  lemma CodeOnSelection(blockType: string, isCollapsed: bool)
    ensures isCollapsed ==> Perform(HandleSelectionChange(Some("code"), blockType), true, isCollapsed) == ConvertBlocks(Code)
    ensures !isCollapsed ==> Perform(HandleSelectionChange(Some("code"), blockType), true, isCollapsed) == InsertCodeWithText
    ensures Perform(HandleSelectionChange(Some("code"), blockType), false, isCollapsed) == Unchanged
  {
  }

  // $updateToolbar

  /** The top-level element of the anchor, as far as the toolbar looks at it. */
  datatype Element = ListElement(listType: ListKind) | HeadingElement(tag: string) | OtherElement(nodeType: string)

  /**
   * The active block type after a selection change: a list's type (that of
   * the nearest list around the anchor, if any), else the heading tag or the
   * node type when it is an offered key; otherwise unchanged.
   */
  function UpdateToolbar(isRangeSelection: bool, element: Element, nearestList: Option<ListKind>, blockType: string): (k: string)
    ensures blockType in BlockKeys ==> k in BlockKeys
    ensures !isRangeSelection ==> k == blockType
    ensures isRangeSelection && element.ListElement? ==>
      k == ListKey(if nearestList.Some? then nearestList.value else element.listType)
    ensures isRangeSelection && element.HeadingElement? ==>
      k == if element.tag in BlockKeys then element.tag else blockType
  {
    if !isRangeSelection then blockType
    else match element
      case ListElement(t) => ListKey(if nearestList.Some? then nearestList.value else t)
      case HeadingElement(tag) => if tag in BlockKeys then tag else blockType
      case OtherElement(t) => if t in BlockKeys then t else blockType
  }

  /** A known node type or tag becomes the active block type; an unknown one leaves it as it was. */
  lemma ToolbarFollowsElement(nodeType: string, blockType: string)
    ensures nodeType in BlockKeys ==> UpdateToolbar(true, OtherElement(nodeType), None, blockType) == nodeType
    ensures nodeType !in BlockKeys ==> UpdateToolbar(true, OtherElement(nodeType), None, blockType) == blockType
    ensures UpdateToolbar(false, OtherElement(nodeType), None, blockType) == blockType
  {
  }
}
