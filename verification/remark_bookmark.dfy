/**
 * `remarkBookmark` (src/plugins/remark-bookmark.js): every paragraph whose
 * only content is a link whose only content is the text `bookmark`
 * becomes an HTML bookmark card for the link's URL, at every depth of the
 * Markdown tree.
 *
 * URL parsing is the parameter `hostname`: the host name of a URL the
 * `URL` constructor accepts, `None` where it throws.
 */
module RemarkBookmark {
  import opened Wrappers
  import opened JsString

  /**
   * The mdast nodes the rewrite tells apart. `Parent` is any other node
   * with children (a list, a block quote, emphasis, ...) and `Leaf` any
   * other node without. Their `kind` is never `paragraph`, `link`, `text`
   * or `html`: those nodes have constructors of their own, so a `Parent`
   * or `Leaf` stands for a node the rewrite passes over (`WellKinded`).
   */
  datatype Node =
    | Paragraph(children: seq<Node>)
    | Link(url: string, children: seq<Node>)
    | Text(value: string)
    | Html(value: string)
    | Parent(kind: string, children: seq<Node>)
    | Leaf(kind: string)

  /** The `type` names that have constructors of their own. */
  predicate IsNamedKind(kind: string) {
    kind == "paragraph" || kind == "link" || kind == "text" || kind == "html"
  }

  /** Every `Parent` and `Leaf` in the tree stands for a node of some other type. */
  predicate WellKinded(n: Node)
    decreases n
  {
    match n
    case Paragraph(children) => forall i :: 0 <= i < |children| ==> WellKinded(children[i])
    case Link(_, children) => forall i :: 0 <= i < |children| ==> WellKinded(children[i])
    case Parent(kind, children) => !IsNamedKind(kind) && forall i :: 0 <= i < |children| ==> WellKinded(children[i])
    case Leaf(kind) => !IsNamedKind(kind)
    case _ => true
  }

  /** The paragraph test: exactly one child, a link with exactly one child, a text node reading `bookmark`. */
  predicate IsBookmark(n: Node) {
    && n.Paragraph?
    && |n.children| == 1
    && n.children[0].Link?
    && |n.children[0].children| == 1
    && n.children[0].children[0].Text?
    && n.children[0].children[0].value == "bookmark"
  }

  // ---------------------------------------------------------------------
  // The card
  // ---------------------------------------------------------------------

  /**
   * The host name without its first `www.`, wherever it occurs, when the
   * URL parses; the URL itself otherwise.
   */
  function DomainOf(url: string, hostname: string -> Option<string>): string {
    match hostname(url)
    case None => url
    case Some(host) => ReplaceFirst(host, "www.", "")
  }

  const FaviconService := "https://www.google.com/s2/favicons?domain="

  function Favicon(domain: string): string {
    FaviconService + domain + "&sz=32"
  }

  const HrefOpen := "<a href=\""

  /** The card markup: the URL goes in unescaped as `href`, as `data-url` and as the title text. */
  function Card(url: string, domain: string): string {
    HrefOpen + url + "\"" + AfterHref(url, domain)
  }

  /** The card after the quote that closes `href`. */
  function AfterHref(url: string, domain: string): string {
    CardAttributes + url + CardTitleOpen + url + CardLinkOpen + Favicon(domain) + CardDomainOpen + domain + CardClose
  }

  const CardAttributes := " target=\"_blank\" rel=\"noopener noreferrer\" class=\"bookmark-card\" data-url=\""
  const CardTitleOpen := "\"><div class=\"bookmark-content\"><div class=\"bookmark-text\"><div class=\"bookmark-title\">"
  const CardLinkOpen := "</div><div class=\"bookmark-description loading\">Loading...</div><div class=\"bookmark-link\"><img src=\""
  const CardDomainOpen := "\" alt=\"\" class=\"bookmark-favicon\"><span class=\"bookmark-domain\">"
  const CardClose := "</span></div></div><div class=\"bookmark-image\" style=\"display: none;\"><img src=\"\" alt=\"\"></div></div></a>"

  /** The `html` node that replaces a bookmark paragraph linking to `url`. */
  function CardNode(url: string, hostname: string -> Option<string>): Node {
    Html(Card(url, DomainOf(url, hostname)))
  }

  // ---------------------------------------------------------------------
  // The rewrite
  // ---------------------------------------------------------------------

  /** A node with the same constructor and fields as `n`, apart from its children. */
  predicate SameShape(r: Node, n: Node) {
    match n
    case Paragraph(_) => r.Paragraph?
    case Link(url, _) => r.Link? && r.url == url
    case Parent(kind, _) => r.Parent? && r.kind == kind
    case _ => r == n
  }

  /**
   * The visit of `n`: a bookmark paragraph is replaced by `card` of its
   * link's URL, any other node keeps its shape and has its children visited.
   */
  function RewriteNode(n: Node, card: string -> Node): (r: Node)
    ensures IsBookmark(n) ==> r == card(n.children[0].url)
    ensures !IsBookmark(n) ==> SameShape(r, n)
    ensures !IsBookmark(n) && (n.Paragraph? || n.Link? || n.Parent?) ==>
      |r.children| == |n.children| && forall i :: 0 <= i < |n.children| ==> r.children[i] == RewriteNode(n.children[i], card)
    decreases n, 1
  {
    if IsBookmark(n) then card(n.children[0].url)
    else
      match n
      case Paragraph(children) => Paragraph(RewriteAll(children, card))
      case Link(url, children) => Link(url, RewriteAll(children, card))
      case Parent(kind, children) => Parent(kind, RewriteAll(children, card))
      case _ => n
  }

  /** The visit of a list of siblings: each is rewritten in place, none is added or dropped. */
  function RewriteAll(nodes: seq<Node>, card: string -> Node): (r: seq<Node>)
    ensures |r| == |nodes|
    ensures forall i :: 0 <= i < |nodes| ==> r[i] == RewriteNode(nodes[i], card)
    decreases nodes, 0
  {
    if |nodes| == 0 then []
    else [RewriteNode(nodes[0], card)] + RewriteAll(nodes[1..], card)
  }

  /** `remarkBookmark()(tree)` on the children of the `root` node. */
  function RemarkBookmark(root: seq<Node>, hostname: string -> Option<string>): (r: seq<Node>)
    ensures |r| == |root|
    ensures forall i :: 0 <= i < |root| ==> IsBookmark(root[i]) ==> r[i] == CardNode(root[i].children[0].url, hostname)
    ensures forall i :: 0 <= i < |root| ==> !IsBookmark(root[i]) ==> SameShape(r[i], root[i])
    ensures forall i :: 0 <= i < |root| ==> (r[i].Html? <==> IsBookmark(root[i]) || root[i].Html?)
  {
    RewriteAll(root, CardsOf(hostname))
  }

  /** The replacement the plugin uses. */
  function CardsOf(hostname: string -> Option<string>): (card: string -> Node)
    ensures forall url :: card(url) == CardNode(url, hostname)
  {
    url => CardNode(url, hostname)
  }

  /** What the replacement must be for the rewrite to be idempotent and to count: an `html` node. */
  ghost predicate MakesHtml(card: string -> Node) {
    forall url :: card(url).Html?
  }

  // ---------------------------------------------------------------------
  // Counting bookmarks and cards
  // ---------------------------------------------------------------------

  /** Bookmark paragraphs in `n`, counted the way `bookmarkCount` counts them. */
  function Bookmarks(n: Node): nat
    decreases n, 1
  {
    if IsBookmark(n) then 1
    else
      match n
      case Paragraph(children) => BookmarksAll(children)
      case Link(_, children) => BookmarksAll(children)
      case Parent(_, children) => BookmarksAll(children)
      case _ => 0
  }

  function BookmarksAll(nodes: seq<Node>): nat
    decreases nodes, 0
  {
    if |nodes| == 0 then 0 else Bookmarks(nodes[0]) + BookmarksAll(nodes[1..])
  }

  /** `html` nodes in `n`. */
  function Cards(n: Node): nat
    decreases n, 1
  {
    match n
    case Html(_) => 1
    case Paragraph(children) => CardsAll(children)
    case Link(_, children) => CardsAll(children)
    case Parent(_, children) => CardsAll(children)
    case _ => 0
  }

  function CardsAll(nodes: seq<Node>): nat
    decreases nodes, 0
  {
    if |nodes| == 0 then 0 else Cards(nodes[0]) + CardsAll(nodes[1..])
  }

  /** A bookmark paragraph holds no `html` node. */
  lemma BookmarkHasNoCards(n: Node)
    requires IsBookmark(n)
    ensures Cards(n) == 0
  {
    var link := n.children[0];
    assert link.children[1..] == [];
    assert CardsAll(link.children) == Cards(link.children[0]) + CardsAll(link.children[1..]);
    assert n.children[1..] == [];
    assert CardsAll(n.children) == Cards(link) + CardsAll(n.children[1..]);
  }

  /** Each bookmark becomes one card, and every other card stays: the rewrite adds exactly the bookmarks' number of cards. */
  lemma {:induction false} RewriteCounts(n: Node, card: string -> Node)
    requires MakesHtml(card)
    ensures Cards(RewriteNode(n, card)) == Cards(n) + Bookmarks(n)
    decreases n, 1
  {
    if IsBookmark(n) {
      BookmarkHasNoCards(n);
    } else {
      match n
      case Paragraph(children) => RewriteAllCounts(children, card);
      case Link(_, children) => RewriteAllCounts(children, card);
      case Parent(_, children) => RewriteAllCounts(children, card);
      case _ =>
    }
  }

  lemma {:induction false} RewriteAllCounts(nodes: seq<Node>, card: string -> Node)
    requires MakesHtml(card)
    ensures CardsAll(RewriteAll(nodes, card)) == CardsAll(nodes) + BookmarksAll(nodes)
    decreases nodes, 0
  {
    if |nodes| > 0 {
      RewriteCounts(nodes[0], card);
      RewriteAllCounts(nodes[1..], card);
      assert RewriteAll(nodes, card)[1..] == RewriteAll(nodes[1..], card);
    }
  }

  // ---------------------------------------------------------------------
  // Identity and idempotence
  // ---------------------------------------------------------------------

  /** A tree without bookmarks is left as it is. */
  lemma {:induction false} NoBookmarksUnchanged(n: Node, card: string -> Node)
    requires Bookmarks(n) == 0
    ensures RewriteNode(n, card) == n
    decreases n, 1
  {
    if !IsBookmark(n) {
      match n
      case Paragraph(children) => NoBookmarksAllUnchanged(children, card);
      case Link(_, children) => NoBookmarksAllUnchanged(children, card);
      case Parent(_, children) => NoBookmarksAllUnchanged(children, card);
      case _ =>
    }
  }

  lemma {:induction false} NoBookmarksAllUnchanged(nodes: seq<Node>, card: string -> Node)
    requires BookmarksAll(nodes) == 0
    ensures RewriteAll(nodes, card) == nodes
    decreases nodes, 0
  {
    if |nodes| > 0 {
      NoBookmarksUnchanged(nodes[0], card);
      NoBookmarksAllUnchanged(nodes[1..], card);
      assert [nodes[0]] + nodes[1..] == nodes;
    }
  }

  /** No bookmark survives the rewrite. */
  lemma {:induction false} RewriteLeavesNoBookmarks(n: Node, card: string -> Node)
    requires MakesHtml(card)
    ensures Bookmarks(RewriteNode(n, card)) == 0
    decreases n, 1
  {
    if !IsBookmark(n) {
      match n
      case Paragraph(children) =>
        RewriteAllLeavesNoBookmarks(children, card);
        ParagraphOfRewritten(children, card);
      case Link(_, children) => RewriteAllLeavesNoBookmarks(children, card);
      case Parent(_, children) => RewriteAllLeavesNoBookmarks(children, card);
      case _ =>
    }
  }

  lemma {:induction false} RewriteAllLeavesNoBookmarks(nodes: seq<Node>, card: string -> Node)
    requires MakesHtml(card)
    ensures BookmarksAll(RewriteAll(nodes, card)) == 0
    decreases nodes, 0
  {
    if |nodes| > 0 {
      RewriteLeavesNoBookmarks(nodes[0], card);
      RewriteAllLeavesNoBookmarks(nodes[1..], card);
      assert RewriteAll(nodes, card)[1..] == RewriteAll(nodes[1..], card);
    }
  }

  /**
   * A paragraph that was not a bookmark is not one after its children are
   * rewritten: a lone link child keeps its url and its lone text child.
   */
  lemma ParagraphOfRewritten(children: seq<Node>, card: string -> Node)
    requires MakesHtml(card)
    requires !IsBookmark(Paragraph(children))
    ensures !IsBookmark(Paragraph(RewriteAll(children, card)))
  {
    var r := RewriteAll(children, card);
    if |children| == 1 {
      assert r[0] == RewriteNode(children[0], card);
      if children[0].Link? {
        var link := children[0];
        assert r[0] == Link(link.url, RewriteAll(link.children, card));
        if |link.children| == 1 {
          var rc := RewriteNode(link.children[0], card);
          assert r[0].children[0] == rc;
          if link.children[0].Text? {
            assert rc == link.children[0];
          } else {
            assert !rc.Text?;
          }
        }
      } else {
        assert !r[0].Link?;
      }
    }
  }

  /** The plugin's replacement is always an `html` node. */
  lemma CardsOfMakesHtml(hostname: string -> Option<string>)
    ensures MakesHtml(CardsOf(hostname))
  {
  }

  /** Running the plugin twice gives what running it once gives. */
  lemma Idempotent(root: seq<Node>, hostname: string -> Option<string>)
    ensures RemarkBookmark(RemarkBookmark(root, hostname), hostname) == RemarkBookmark(root, hostname)
  {
    CardsOfMakesHtml(hostname);
    RewriteAllLeavesNoBookmarks(root, CardsOf(hostname));
    NoBookmarksAllUnchanged(RewriteAll(root, CardsOf(hostname)), CardsOf(hostname));
  }

  /** The plugin adds one `html` node per bookmark paragraph and keeps every other. */
  lemma CardsAdded(root: seq<Node>, hostname: string -> Option<string>)
    ensures CardsAll(RemarkBookmark(root, hostname)) == CardsAll(root) + BookmarksAll(root)
  {
    CardsOfMakesHtml(hostname);
    RewriteAllCounts(root, CardsOf(hostname));
  }

  /** A tree without bookmark paragraphs comes back unchanged. */
  lemma NoBookmarksKept(root: seq<Node>, hostname: string -> Option<string>)
    requires BookmarksAll(root) == 0
    ensures RemarkBookmark(root, hostname) == root
  {
    NoBookmarksAllUnchanged(root, CardsOf(hostname));
  }

  /** The rewrite keeps every `Parent` and `Leaf` a node of some other type. */
  lemma {:induction false} RewriteKinded(n: Node, card: string -> Node)
    requires MakesHtml(card) && WellKinded(n)
    ensures WellKinded(RewriteNode(n, card))
    decreases n, 1
  {
    if !IsBookmark(n) {
      match n
      case Paragraph(children) => RewriteAllKinded(children, card);
      case Link(_, children) => RewriteAllKinded(children, card);
      case Parent(_, children) => RewriteAllKinded(children, card);
      case _ =>
    }
  }

  lemma {:induction false} RewriteAllKinded(nodes: seq<Node>, card: string -> Node)
    requires MakesHtml(card) && forall i :: 0 <= i < |nodes| ==> WellKinded(nodes[i])
    ensures forall i :: 0 <= i < |nodes| ==> WellKinded(RewriteAll(nodes, card)[i])
    decreases nodes, 0
  {
    forall i | 0 <= i < |nodes| ensures WellKinded(RewriteAll(nodes, card)[i]) {
      RewriteKinded(nodes[i], card);
    }
  }

  /** The plugin maps a well-kinded tree to a well-kinded tree. */
  lemma RemarkBookmarkKinded(root: seq<Node>, hostname: string -> Option<string>)
    requires forall i :: 0 <= i < |root| ==> WellKinded(root[i])
    ensures forall i :: 0 <= i < |RemarkBookmark(root, hostname)| ==> WellKinded(RemarkBookmark(root, hostname)[i])
  {
    CardsOfMakesHtml(hostname);
    RewriteAllKinded(root, CardsOf(hostname));
  }

  /** A bookmark at any depth is reached. */
  lemma NestedBookmarkRewritten(kind: string, inner: string, b: Node, hostname: string -> Option<string>)
    requires IsBookmark(b)
    ensures RemarkBookmark([Parent(kind, [Parent(inner, [b])])], hostname)
      == [Parent(kind, [Parent(inner, [CardNode(b.children[0].url, hostname)])])]
  {
    var card := CardsOf(hostname);
    var middle := RewriteNode(Parent(inner, [b]), card);
    assert RewriteAll([b], card) == [card(b.children[0].url)];
    assert middle == Parent(inner, [card(b.children[0].url)]);
    assert RewriteAll([Parent(inner, [b])], card) == [middle];
    assert RewriteNode(Parent(kind, [Parent(inner, [b])]), card) == Parent(kind, [middle]);
  }

  /** A link whose text is not exactly `bookmark` is left alone. */
  lemma OtherLinkTextKept(url: string, text: string, hostname: string -> Option<string>)
    requires text != "bookmark"
    ensures RemarkBookmark([Paragraph([Link(url, [Text(text)])])], hostname) == [Paragraph([Link(url, [Text(text)])])]
  {
    var p := Paragraph([Link(url, [Text(text)])]);
    assert BookmarksAll([Text(text)]) == 0 by {
      assert [Text(text)][1..] == [];
    }
    assert BookmarksAll(p.children) == 0 by {
      assert p.children[1..] == [];
    }
    assert BookmarksAll([p]) == 0 by {
      assert [p][1..] == [];
    }
    NoBookmarksKept([p], hostname);
  }

  // ---------------------------------------------------------------------
  // The domain
  // ---------------------------------------------------------------------

  /** The first `www.` of the host name is removed, and nothing else. */
  lemma DomainDropsFirstWww(url: string, hostname: string -> Option<string>, i: nat)
    requires hostname(url).Some?
    requires OccursAt(hostname(url).value, "www.", i)
    requires forall j :: 0 <= j < i ==> !OccursAt(hostname(url).value, "www.", j)
    ensures DomainOf(url, hostname) == hostname(url).value[..i] + hostname(url).value[i + 4..]
  {
    ReplaceFirstLiteral(hostname(url).value, "www.", "", i);
  }

  /** Example of `DomainOf`: a host name without `www.` is the domain. */
  lemma DomainWithoutWww(url: string, hostname: string -> Option<string>)
    requires hostname(url).Some?
    requires forall j :: 0 <= j ==> !OccursAt(hostname(url).value, "www.", j)
    ensures DomainOf(url, hostname) == hostname(url).value
  {
    assert IndexOf(hostname(url).value, "www.").None?;
  }

  /** `www.` in the middle of a host name is removed too: `a.www.b` gives `a.b`. */
  lemma DomainDropsInnerWww(url: string, hostname: string -> Option<string>, a: string, b: string)
    requires hostname(url) == Some(a + ".www." + b)
    requires forall j :: 0 <= j < |a| + 1 ==> !OccursAt(a + ".www." + b, "www.", j)
    ensures DomainOf(url, hostname) == a + "." + b
  {
    var h := a + ".www." + b;
    assert h[|a| + 1..|a| + 5] == "www.";
    DomainDropsFirstWww(url, hostname, |a| + 1);
    assert h[..|a| + 1] == a + ".";
    assert h[|a| + 5..] == b;
  }

  /** Example of `DomainOf`: a URL the parser rejects is its own domain. */
  lemma DomainOfUnparsed(url: string, hostname: string -> Option<string>)
    requires hostname(url).None?
    ensures DomainOf(url, hostname) == url
  {
  }

  // ---------------------------------------------------------------------
  // Reading the link back
  // ---------------------------------------------------------------------

  /** The `href` value of markup opening with `<a href="`: the text up to the next `"`. */
  function ReadHref(html: string): (r: Option<string>)
    ensures r.Some? ==> '"' !in r.value
  {
    if |html| < |HrefOpen| || html[..|HrefOpen|] != HrefOpen then None
    else
      var rest := html[|HrefOpen|..];
      match IndexOf(rest, "\"")
      case None => None
      case Some(j) =>
        assert forall k :: 0 <= k < j ==> rest[k] != '"' by {
          forall k | 0 <= k < j ensures rest[k] != '"' {
            assert !OccursAt(rest, "\"", k);
          }
        }
        Some(rest[..j])
  }

  /** The position of the first `"` of `s`, if any. */
  lemma FirstQuote(s: string, tail: string, j: nat)
    requires j <= |s| && (j < |s| ==> s[j] == '"')
    requires forall k :: 0 <= k < j ==> s[k] != '"'
    requires |tail| > 0 && tail[0] == '"'
    ensures IndexOf(s + tail, "\"") == Some(j)
  {
    var t := s + tail;
    assert t[j] == '"';
    assert OccursAt(t, "\"", j) by {
      assert t[j..j + 1] == [t[j]];
    }
    forall k | 0 <= k < j ensures !OccursAt(t, "\"", k) {
      assert t[k..k + 1] == [s[k]];
    }
  }

  /** Markup opening with `<a href="`, the URL and a `"` has that URL as its `href` when the URL holds no `"`. */
  lemma HrefOfLink(url: string, tail: string)
    requires |tail| > 0 && tail[0] == '"'
    ensures '"' !in url ==> ReadHref(HrefOpen + url + tail) == Some(url)
    ensures '"' in url ==> ReadHref(HrefOpen + url + tail) != Some(url)
  {
    var html := HrefOpen + url + tail;
    assert html[..|HrefOpen|] == HrefOpen && html[|HrefOpen|..] == url + tail;
    if '"' !in url {
      FirstQuote(url, tail, |url|);
      assert (url + tail)[..|url|] == url;
    }
  }

  /** The card links to its URL exactly when the URL holds no `"`; otherwise `href` stops short of it. */
  lemma CardHref(url: string, domain: string)
    ensures ReadHref(Card(url, domain)) == Some(url) <==> '"' !in url
  {
    var after := AfterHref(url, domain);
    RegroupLast(HrefOpen, url, "\"", after);
    HrefOfLink(url, "\"" + after);
  }

  lemma RegroupLast(a: string, b: string, c: string, d: string)
    ensures a + b + c + d == a + b + (c + d)
  {
  }
}
