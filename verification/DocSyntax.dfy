/** Doc attribute arguments as trees of tokens, and that the parser reads every
    text such a tree has. */
module DocSyntax {
  import opened DocParsing
  import opened DocRoundTrip
  import opened DocGrammar

  // ----- trees of tokens -----

  datatype ValueTokens =
    | TextTokens(spelling: seq<string>, value: string)
    | NumberTokens(text: string)
    | WordTokens(word: string)
    | CallTokens(word: string, gap: string, items: ItemTokens)
    | ListTokens(items: ItemTokens)
    | RecordTokens(items: ItemTokens)

  datatype KeyTokens = WordKey(word: string) | TextKey(spelling: seq<string>, value: string)

  /** A value, with its key in front where there are keys; `before` and `after`
      stand around the equals sign. */
  datatype Item = PlainItem(value: ValueTokens) | KeyedItem(key: KeyTokens, before: string, after: string, value: ValueTokens)

  /** What stands between brackets; a last comma may follow the last item. */
  datatype ItemTokens =
    | NoItems(blank: string)
    | LastItem(pre: string, item: Item, post: string)
    | MoreItems(pre: string, item: Item, post: string, rest: ItemTokens)

  function ValueText(v: ValueTokens): string {
    match v
    case TextTokens(spelling, _) => ['"'] + (Written(spelling) + ['"'])
    case NumberTokens(text) => text
    case WordTokens(word) => word
    case CallTokens(word, gap, items) => word + (gap + (['('] + (ItemsText(items) + [')'])))
    case ListTokens(items) => ['['] + (ItemsText(items) + [']'])
    case RecordTokens(items) => ['{'] + (ItemsText(items) + ['}'])
  }

  function KeyText(key: KeyTokens): string {
    match key
    case WordKey(word) => word
    case TextKey(spelling, _) => ['"'] + (Written(spelling) + ['"'])
  }

  function ItemText(item: Item): string {
    match item
    case PlainItem(value) => ValueText(value)
    case KeyedItem(key, before, after, value) => KeyText(key) + (before + (['='] + (after + ValueText(value))))
  }

  function ItemsText(items: ItemTokens): string {
    match items
    case NoItems(blank) => blank
    case LastItem(pre, item, post) => pre + (ItemText(item) + post)
    case MoreItems(pre, item, post, rest) => pre + (ItemText(item) + (post + ([','] + ItemsText(rest))))
  }

  // ----- what the syntax allows -----

  ghost predicate Allowed(v: ValueTokens) {
    match v
    case TextTokens(spelling, value) => Spelled(value, spelling)
    case NumberTokens(text) => NumberText(text)
    case WordTokens(word) => Word(word)
    case CallTokens(word, gap, items) => Word(word) && Blanks(gap) && ItemsAllowed(items, false)
    case ListTokens(items) => ItemsAllowed(items, false)
    case RecordTokens(items) => ItemsAllowed(items, true)
  }

  ghost predicate KeyAllowed(key: KeyTokens) {
    match key
    case WordKey(word) => Word(word)
    case TextKey(spelling, value) => Spelled(value, spelling)
  }

  ghost predicate ItemAllowed(item: Item, keyed: bool) {
    match item
    case PlainItem(value) => !keyed && Allowed(value)
    case KeyedItem(key, before, after, value) => keyed && KeyAllowed(key) && Blanks(before) && Blanks(after) && Allowed(value)
  }

  ghost predicate ItemsAllowed(items: ItemTokens, keyed: bool) {
    match items
    case NoItems(blank) => Blanks(blank)
    case LastItem(pre, item, post) => Blanks(pre) && ItemAllowed(item, keyed) && Blanks(post)
    case MoreItems(pre, item, post, rest) =>
      Blanks(pre) && ItemAllowed(item, keyed) && Blanks(post) && ItemsAllowed(rest, keyed)
  }

  // ----- what the tokens stand for -----

  function KeyName(key: KeyTokens): string {
    match key
    case WordKey(word) => word
    case TextKey(_, value) => value
  }

  function ValueOf(v: ValueTokens): DocValue {
    match v
    case TextTokens(_, value) => TextValue(value)
    case NumberTokens(text) => NumberValue(text)
    case WordTokens(word) =>
      if word == "true" then BoolValue(true) else if word == "false" then BoolValue(false) else IdentValue(word)
    case CallTokens(word, _, items) => CallValue(word, ValuesOf(items))
    case ListTokens(items) => ListValue(ValuesOf(items))
    case RecordTokens(items) => RecordValue(FieldsOf(items))
  }

  function ItemKey(item: Item): string {
    match item
    case PlainItem(_) => ""
    case KeyedItem(key, _, _, _) => KeyName(key)
  }

  function ValuesOf(items: ItemTokens): seq<DocValue> {
    match items
    case NoItems(_) => []
    case LastItem(_, item, _) => [ValueOf(item.value)]
    case MoreItems(_, item, _, rest) => [ValueOf(item.value)] + ValuesOf(rest)
  }

  function FieldsOf(items: ItemTokens): seq<DocArgument> {
    match items
    case NoItems(_) => []
    case LastItem(_, item, _) => [DocArgument(ItemKey(item), ValueOf(item.value))]
    case MoreItems(_, item, _, rest) => [DocArgument(ItemKey(item), ValueOf(item.value))] + FieldsOf(rest)
  }
}
