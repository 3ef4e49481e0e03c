/**
 * The remote page tree as the sync script sees it through the Notion API
 * (scripts/notion-sync.js), and `getPageTitle`.
 */
module Notion {
  import opened Wrappers

  /**
   * A page property. `TitleProperty` is a property of type `title` carrying
   * the `plain_text` of each of its rich-text segments; `OtherProperty`
   * stands for a property of any other type.
   */
  datatype Property = TitleProperty(segments: seq<string>) | OtherProperty(kind: string)

  /** The page object `pages.retrieve` returns: its id, properties and `last_edited_time`. */
  datatype Page = Page(id: string, properties: map<string, Property>, lastEditedTime: string)

  /**
   * One entry of a `blocks.children.list` response. A `ChildPage` carries
   * the result of retrieving its page object and the result of listing its
   * own children: `listError` is the error that listing throws, if any, and
   * `children` is the full list of child blocks otherwise. Every other
   * block type is `OtherBlock`.
   */
  datatype Block =
    | ChildPage(retrieved: Result<Page>, listError: Option<string>, children: seq<Block>)
    | OtherBlock

  /** The title aliases, in the order `||` tries them. */
  const TitleAliases: seq<string> := ["title", "Title", "Name"]

  const Untitled: string := "Untitled"

  /** A property `getPageTitle` can take a title from: a title property with at least one segment. */
  predicate Usable(p: Property) {
    p.TitleProperty? && |p.segments| > 0
  }

  /** `TitleAliases[k]` is the first alias present in `properties`. */
  predicate IsFirstAlias(properties: map<string, Property>, k: int) {
    && 0 <= k < |TitleAliases|
    && TitleAliases[k] in properties
    && forall j :: 0 <= j < k ==> TitleAliases[j] !in properties
  }

  /** The title a property yields when it is the one consulted. */
  function TitleFrom(p: Property): string {
    if Usable(p) then p.segments[0] else Untitled
  }

  /** `page.properties.title || page.properties.Title || page.properties.Name`: the first alias present. */
  function TitleProperty(properties: map<string, Property>): (r: Option<Property>)
    ensures forall k :: IsFirstAlias(properties, k) ==> r == Some(properties[TitleAliases[k]])
    ensures r.None? <==> forall a :: a in TitleAliases ==> a !in properties
  {
    assert TitleAliases[0] == "title" && TitleAliases[1] == "Title" && TitleAliases[2] == "Name";
    if "title" in properties then Some(properties["title"])
    else if "Title" in properties then Some(properties["Title"])
    else if "Name" in properties then Some(properties["Name"])
    else None
  }

  /**
   * `getPageTitle(page)`: the first alias present decides. If it is a
   * non-empty title property, its first segment's text is the title;
   * otherwise, or when no alias is present, the title is "Untitled". A
   * present but unusable alias does not fall back to the next one.
   */
  function GetPageTitle(page: Page): (r: string)
    ensures r == Untitled || exists a :: a in TitleAliases && a in page.properties && Usable(page.properties[a]) && r == page.properties[a].segments[0]
    ensures forall k :: IsFirstAlias(page.properties, k) ==> r == TitleFrom(page.properties[TitleAliases[k]])
    ensures (forall a :: a in TitleAliases ==> a !in page.properties) ==> r == Untitled
  {
    match TitleProperty(page.properties)
    case None => Untitled
    case Some(p) => TitleFrom(p)
  }

  /** Example of the alias order: an empty or non-title `title` property hides a usable `Name` property. */
  lemma NoFallbackPastPresentAlias(page: Page)
    requires "title" in page.properties && !Usable(page.properties["title"])
    requires "Name" in page.properties && Usable(page.properties["Name"])
    ensures GetPageTitle(page) == Untitled
  {
  }
}
