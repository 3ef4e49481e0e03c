/**
 * The front matter `convertPageToMarkdown` writes ahead of each post
 * (scripts/notion-sync.js): which header fields a page gets, how they are
 * laid out as YAML lines, and a reader for that layout, which is the
 * reader the layout is checked against.
 *
 * The header's double-quoted strings are read back the way a YAML reader
 * reads double-quoted scalars (section 7.3.1 of YAML 1.2, with the escape
 * sequences of its section 5.7), so a backslash in a field is an escape
 * character to the reader. The page's code escapes only `"`; `EscapeScalar`
 * escapes `\` as well, and `Document` is the layout with that escaping.
 */
module FrontMatter {
  import opened Wrappers
  import opened JsString
  import Decimal

  /** The header fields, unescaped; absent optional lines are `None` or empty. */
  datatype Header = Header(
    title: string,
    description: string,
    date: string,
    notionId: string,
    category: Option<string>,
    tags: seq<string>,
    hierarchy: seq<string>,
    parent: Option<string>,
    level: nat)

  /**
   * The fields a page gets: a category only when the parent title is a
   * non-empty string, the hierarchy without its last entry as tags when
   * there is more than one entry, and the parent id without hyphens only
   * when something is left of it.
   */
  function HeaderOf(title: string, description: string, date: string, notionId: string,
                    parentTitle: Option<string>, parent: Option<string>, hierarchy: seq<string>, level: nat): (h: Header)
    ensures h.category.Some? <==> parentTitle.Some? && parentTitle.value != ""
    ensures h.category.Some? ==> h.category == parentTitle
    ensures |hierarchy| > 1 ==> |h.tags| == |hierarchy| - 1 && forall i :: 0 <= i < |h.tags| ==> h.tags[i] == hierarchy[i]
    ensures |hierarchy| <= 1 ==> h.tags == []
    ensures h.parent.Some? <==> parent.Some? && RemoveHyphens(parent.value) != ""
    ensures h.parent.Some? ==> '-' !in h.parent.value
    ensures h.hierarchy == hierarchy && h.level == level
  {
    Header(
      title, description, date, notionId,
      if parentTitle.Some? && parentTitle.value != "" then parentTitle else None,
      if |hierarchy| > 1 then hierarchy[..|hierarchy| - 1] else [],
      hierarchy,
      if parent.Some? && RemoveHyphens(parent.value) != "" then Some(RemoveHyphens(parent.value)) else None,
      level)
  }

  // ---------------------------------------------------------------------
  // Escaping
  // ---------------------------------------------------------------------

  /** Escaping for a YAML double-quoted scalar: `\` and `"` each gain a backslash. */
  function EscapeScalar(s: string): (r: string)
    ensures |r| >= |s|
    ensures '"' !in s && '\\' !in s ==> r == s
    decreases |s|
  {
    if |s| == 0 then ""
    else if s[0] == '"' || s[0] == '\\' then ['\\', s[0]] + EscapeScalar(s[1..])
    else [s[0]] + EscapeScalar(s[1..])
  }

  // ---------------------------------------------------------------------
  // Layout
  // ---------------------------------------------------------------------

  /** `key: "text"` and a line break, then `rest`. */
  function QuotedLine(key: string, text: string, rest: string): string {
    key + ": \"" + text + "\"\n" + rest
  }

  /** One `  - "item"` line per item, then `rest`. */
  function ItemLines(items: seq<string>, escape: string -> string, rest: string): (r: string)
    ensures items == [] ==> r == rest
    ensures items != [] ==> |r| > 0 && r[0] == ' '
    decreases |items|
  {
    if items == [] then rest else "  - \"" + escape(items[0]) + "\"\n" + ItemLines(items[1..], escape, rest)
  }

  /** A list under `key:`, written only when it has items. */
  function ListBlock(key: string, items: seq<string>, escape: string -> string, rest: string): (r: string)
    requires |key| > 0
    ensures items == [] ==> r == rest
    ensures items != [] ==> |r| > 0 && r[0] == key[0]
  {
    if items == [] then rest else key + ":\n" + ItemLines(items, escape, rest)
  }

  /** A quoted line written only when its value is present and not empty. */
  function OptionalLine(key: string, value: Option<string>, escape: string -> string, rest: string): (r: string)
    requires |key| > 0
    ensures !(value.Some? && value.value != "") ==> r == rest
    ensures value.Some? && value.value != "" ==> |r| > 0 && r[0] == key[0]
  {
    if value.Some? && value.value != "" then QuotedLine(key, escape(value.value), rest) else rest
  }

  /** The identity, for the fields the page writes without escaping. */
  function Verbatim(s: string): string {
    s
  }

  /** Everything from the `level` line on. */
  function Closing(level: nat, body: string): (r: string)
    ensures |r| > 0 && r[0] == 'l'
  {
    "level: " + Decimal.FromNat(level) + "\n---\n\n" + body
  }

  /** The optional lines, the level and the body. */
  function Tail(h: Header, escape: string -> string, body: string): (r: string)
    ensures |r| > 0 && r[0] in "cthpl"
  {
    OptionalLine("category", h.category, escape,
      ListBlock("tags", h.tags, escape,
        ListBlock("hierarchy", h.hierarchy, escape,
          OptionalLine("parent", h.parent, Verbatim,
            Closing(h.level, body)))))
  }

  /** Everything after the `title` line. */
  function AfterTitle(h: Header, escape: string -> string, body: string): string {
    QuotedLine("description", escape(h.description),
      QuotedLine("date", h.date,
        QuotedLine("notionId", h.notionId,
          Tail(h, escape, body))))
  }

  /** The file: the header between `---` lines, a blank line, then the body. */
  function RenderWith(h: Header, escape: string -> string, body: string): string {
    "---\n" + QuotedLine("title", escape(h.title), AfterTitle(h, escape, body))
  }

  /** The file as the page's code writes it: only `"` is escaped. */
  function DocumentAsWritten(h: Header, body: string): string {
    RenderWith(h, EscapeQuotes, body)
  }

  /** The file with the header's strings escaped for the YAML reader. */
  function Document(h: Header, body: string): string {
    RenderWith(h, EscapeScalar, body)
  }

  // ---------------------------------------------------------------------
  // Reading
  // ---------------------------------------------------------------------

  /** A value read from the front of a text, and what follows it. */
  datatype Read<+T> = Read(value: T, rest: string)

  /** The single-character escapes of a YAML double-quoted scalar (section 5.7 of YAML 1.2). */
  function Unescape(c: char): Option<char> {
    match c
    case '0' => Some('\U{0000}')
    case 'a' => Some('\U{0007}')
    case 'b' => Some('\U{0008}')
    case 't' => Some('\t')
    case '\t' => Some('\t')
    case 'n' => Some('\n')
    case 'v' => Some('\U{000B}')
    case 'f' => Some('\U{000C}')
    case 'r' => Some('\r')
    case 'e' => Some('\U{001B}')
    case ' ' => Some(' ')
    case '"' => Some('"')
    case '/' => Some('/')
    case '\\' => Some('\\')
    case 'N' => Some('\U{0085}')
    case '_' => Some('\U{00A0}')
    case 'L' => Some('\U{2028}')
    case 'P' => Some('\U{2029}')
    case _ => None
  }

  function Prepend(c: char, r: Option<Read<string>>): Option<Read<string>> {
    if r.Some? then Some(Read([c] + r.value.value, r.value.rest)) else None
  }

  /**
   * A character a YAML 1.2 stream may hold (section 5.1: tab, the
   * printable ASCII range, NEL and the printable ranges above it), other
   * than the line breaks LF and CR (section 5.4).
   */
  predicate PrintableChar(c: char) {
    || c == '\t'
    || (' ' <= c <= '~')
    || c == '\U{0085}'
    || ('\U{00A0}' <= c <= '\U{D7FF}')
    || ('\U{E000}' <= c <= '\U{FFFD}')
    || '\U{10000}' <= c
  }

  /**
   * The content of a double-quoted scalar up to its closing quote, with
   * escapes resolved. A line break inside the quotes (which YAML folds),
   * any other character a YAML stream may not hold raw, and the numeric
   * escapes are not read.
   */
  function ReadScalar(s: string): (r: Option<Read<string>>)
    ensures r.Some? ==> |r.value.rest| < |s|
    decreases |s|
  {
    if |s| == 0 || !PrintableChar(s[0]) then None
    else if s[0] == '"' then Some(Read("", s[1..]))
    else if s[0] == '\\' then
      if |s| < 2 || Unescape(s[1]).None? then None
      else Prepend(Unescape(s[1]).value, ReadScalar(s[2..]))
    else Prepend(s[0], ReadScalar(s[1..]))
  }

  /** `s` without the prefix `lit`, if it has it. */
  function StripPrefix(s: string, lit: string): (r: Option<string>)
    ensures r.Some? ==> |r.value| == |s| - |lit|
  {
    if |lit| <= |s| && s[..|lit|] == lit then Some(s[|lit|..]) else None
  }

  /** A quoted scalar and the line break after it. */
  function ReadQuotedLine(s: string): (r: Option<Read<string>>)
    ensures r.Some? ==> |r.value.rest| < |s|
  {
    match ReadScalar(s)
    case None => None
    case Some(q) =>
      match StripPrefix(q.rest, "\n")
      case None => None
      case Some(rest) => Some(Read(q.value, rest))
  }

  /** `key: "..."` */
  function ReadField(s: string, key: string): (r: Option<Read<string>>)
    ensures r.Some? ==> |r.value.rest| < |s|
  {
    match StripPrefix(s, key + ": \"")
    case None => None
    case Some(after) => ReadQuotedLine(after)
  }

  /** `key: "..."` if the text starts with that key. */
  function ReadOptionalField(s: string, key: string): (r: Option<Read<Option<string>>>)
    ensures r.Some? ==> |r.value.rest| <= |s|
  {
    match StripPrefix(s, key + ": \"")
    case None => Some(Read(None, s))
    case Some(after) =>
      match ReadQuotedLine(after)
      case None => None
      case Some(q) => Some(Read(Some(q.value), q.rest))
  }

  /** `  - "..."` lines, as many as there are. */
  function ReadItems(s: string): (r: Option<Read<seq<string>>>)
    ensures r.Some? ==> |r.value.rest| <= |s|
    decreases |s|
  {
    match StripPrefix(s, "  - \"")
    case None => Some(Read([], s))
    case Some(after) =>
      match ReadQuotedLine(after)
      case None => None
      case Some(q) =>
        match ReadItems(q.rest)
        case None => None
        case Some(more) => Some(Read([q.value] + more.value, more.rest))
  }

  /** A list under `key:`, or no list. */
  function ReadList(s: string, key: string): (r: Option<Read<seq<string>>>)
    ensures r.Some? ==> |r.value.rest| <= |s|
  {
    match StripPrefix(s, key + ":\n")
    case None => Some(Read([], s))
    case Some(after) => ReadItems(after)
  }

  /** `level: <digits>`, the closing `---` and the blank line. */
  function ReadClosing(s: string): Option<Read<nat>> {
    match StripPrefix(s, "level: ")
    case None => None
    case Some(after) =>
      var k := Decimal.DigitRun(after);
      if k == 0 then None
      else
        match StripPrefix(after[k..], "\n---\n\n")
        case None => None
        case Some(body) => Some(Read(Decimal.ToNat(after[..k]), body))
  }

  /** The fields after `notionId`. */
  datatype TailFields = TailFields(category: Option<string>, tags: seq<string>, hierarchy: seq<string>, parent: Option<string>, level: nat)

  function ReadTail(s: string): Option<Read<TailFields>> {
    match ReadOptionalField(s, "category")
    case None => None
    case Some(c) =>
      match ReadList(c.rest, "tags")
      case None => None
      case Some(t) =>
        match ReadList(t.rest, "hierarchy")
        case None => None
        case Some(hy) =>
          match ReadOptionalField(hy.rest, "parent")
          case None => None
          case Some(p) =>
            match ReadClosing(p.rest)
            case None => None
            case Some(l) => Some(Read(TailFields(c.value, t.value, hy.value, p.value, l.value), l.rest))
  }

  /** The header and the body of a file. */
  function ParseDocument(s: string): Option<Read<Header>> {
    match StripPrefix(s, "---\n")
    case None => None
    case Some(s0) =>
      match ReadField(s0, "title")
      case None => None
      case Some(ti) =>
        match ReadField(ti.rest, "description")
        case None => None
        case Some(de) =>
          match ReadField(de.rest, "date")
          case None => None
          case Some(da) =>
            match ReadField(da.rest, "notionId")
            case None => None
            case Some(id) =>
              match ReadTail(id.rest)
              case None => None
              case Some(t) =>
                var f := t.value;
                Some(Read(Header(ti.value, de.value, da.value, id.value, f.category, f.tags, f.hierarchy, f.parent, f.level), t.rest))
  }

  // ---------------------------------------------------------------------
  // Round trip
  // ---------------------------------------------------------------------

  /** Printable text on one line: no line break and no control character. */
  predicate OneLine(s: string) {
    forall i :: 0 <= i < |s| ==> PrintableChar(s[i])
  }

  /** One-line text that needs no escaping: what the page writes unescaped. */
  predicate IsPlainField(s: string) {
    '"' !in s && '\\' !in s && OneLine(s)
  }

  /** `text`, then a closing quote, reads back as `v` whatever follows. */
  ghost predicate ReadsAs(text: string, v: string) {
    forall rest :: ReadScalar(text + "\"" + rest) == Some(Read(v, rest))
  }

  /** Everything but the title can be written and read back. */
  predicate RestWellFormed(h: Header) {
    && OneLine(h.description)
    && IsPlainField(h.date)
    && IsPlainField(h.notionId)
    && (h.category.Some? ==> h.category.value != "" && OneLine(h.category.value))
    && (forall i :: 0 <= i < |h.tags| ==> OneLine(h.tags[i]))
    && (forall i :: 0 <= i < |h.hierarchy| ==> OneLine(h.hierarchy[i]))
    && (h.parent.Some? ==> h.parent.value != "" && IsPlainField(h.parent.value))
  }

  predicate WellFormed(h: Header) {
    OneLine(h.title) && RestWellFormed(h)
  }

  lemma ReadScalarQuote(rest: string)
    ensures ReadScalar("\"" + rest) == Some(Read("", rest))
  {
    assert ("\"" + rest)[1..] == rest;
  }

  lemma ReadScalarChar(c: char, t: string)
    requires c != '"' && c != '\\' && PrintableChar(c)
    ensures ReadScalar([c] + t) == Prepend(c, ReadScalar(t))
  {
    assert ([c] + t)[1..] == t;
  }

  lemma ReadScalarPair(c: char, t: string)
    requires c == '"' || c == '\\'
    ensures ReadScalar(['\\', c] + t) == Prepend(c, ReadScalar(t))
  {
    assert (['\\', c] + t)[2..] == t;
    assert Unescape(c) == Some(c);
  }

  lemma PrependRead(v: string, rest: string)
    requires |v| > 0
    ensures Prepend(v[0], Some(Read(v[1..], rest))) == Some(Read(v, rest))
  {
    assert [v[0]] + v[1..] == v;
  }

  /** Reading an escaped text consumes its first character's escape. */
  lemma ReadEscapedStep(v: string, rest: string)
    requires |v| > 0 && PrintableChar(v[0])
    ensures ReadScalar(EscapeScalar(v) + "\"" + rest) == Prepend(v[0], ReadScalar(EscapeScalar(v[1..]) + "\"" + rest))
  {
    var t := EscapeScalar(v[1..]) + "\"" + rest;
    if v[0] == '"' || v[0] == '\\' {
      EscapedPairFront(v, rest);
      ReadScalarPair(v[0], t);
    } else {
      EscapedCharFront(v, rest);
      ReadScalarChar(v[0], t);
    }
  }

  lemma EscapedPairFront(v: string, rest: string)
    requires |v| > 0 && (v[0] == '"' || v[0] == '\\')
    ensures EscapeScalar(v) + "\"" + rest == ['\\', v[0]] + (EscapeScalar(v[1..]) + "\"" + rest)
  {
    var e := EscapeScalar(v[1..]);
    assert EscapeScalar(v) == ['\\', v[0]] + e;
    Regroup(['\\', v[0]], e, "\"", rest);
  }

  lemma EscapedCharFront(v: string, rest: string)
    requires |v| > 0 && v[0] != '"' && v[0] != '\\'
    ensures EscapeScalar(v) + "\"" + rest == [v[0]] + (EscapeScalar(v[1..]) + "\"" + rest)
  {
    var e := EscapeScalar(v[1..]);
    assert EscapeScalar(v) == [v[0]] + e;
    Regroup([v[0]], e, "\"", rest);
  }

  lemma Regroup(h: string, e: string, q: string, rest: string)
    ensures h + e + q + rest == h + (e + q + rest)
  {
  }

  lemma OneLineTail(v: string)
    requires |v| > 0 && OneLine(v)
    ensures PrintableChar(v[0]) && OneLine(v[1..])
  {
    assert forall i :: 0 <= i < |v[1..]| ==> v[1..][i] == v[i + 1];
  }

  /** An escaped scalar reads back as the text that was escaped. */
  lemma {:induction false} ReadEscaped(v: string, rest: string)
    requires OneLine(v)
    ensures ReadScalar(EscapeScalar(v) + "\"" + rest) == Some(Read(v, rest))
    decreases |v|
  {
    if |v| == 0 {
      assert EscapeScalar(v) + "\"" + rest == "\"" + rest;
      ReadScalarQuote(rest);
    } else {
      OneLineTail(v);
      ReadEscaped(v[1..], rest);
      ReadEscapedStep(v, rest);
      PrependRead(v, rest);
    }
  }

  lemma ReadsAsEscaped(v: string)
    requires OneLine(v)
    ensures ReadsAs(EscapeScalar(v), v)
  {
    forall rest ensures ReadScalar(EscapeScalar(v) + "\"" + rest) == Some(Read(v, rest)) {
      ReadEscaped(v, rest);
    }
  }

  /** Plain text is its own escape. */
  lemma ReadPlain(v: string, rest: string)
    requires IsPlainField(v)
    ensures ReadScalar(v + "\"" + rest) == Some(Read(v, rest))
  {
    assert EscapeScalar(v) == v;
    ReadEscaped(v, rest);
  }

  /** The prefix test fails on a differing first character. */
  lemma NoPrefixOnMismatch(s: string, lit: string)
    requires |lit| > 0 && |s| > 0 && s[0] != lit[0]
    ensures StripPrefix(s, lit) == None
  {
    if |lit| <= |s| {
      assert s[..|lit|][0] != lit[0];
    }
  }

  lemma StripPrefixOf(lit: string, rest: string)
    ensures StripPrefix(lit + rest, lit) == Some(rest)
  {
    assert (lit + rest)[..|lit|] == lit;
    assert (lit + rest)[|lit|..] == rest;
  }

  /** A quoted line reads back as the value its text reads as. */
  lemma ReadFieldOf(key: string, text: string, v: string, rest: string)
    requires ReadScalar(text + "\"" + ("\n" + rest)) == Some(Read(v, "\n" + rest))
    ensures ReadField(QuotedLine(key, text, rest), key) == Some(Read(v, rest))
  {
    var s := QuotedLine(key, text, rest);
    assert s == (key + ": \"") + (text + "\"" + ("\n" + rest));
    StripPrefixOf(key + ": \"", text + "\"" + ("\n" + rest));
    StripPrefixOf("\n", rest);
  }

  lemma ReadEscapedField(key: string, v: string, rest: string)
    requires OneLine(v)
    ensures ReadField(QuotedLine(key, EscapeScalar(v), rest), key) == Some(Read(v, rest))
  {
    ReadEscaped(v, "\n" + rest);
    ReadFieldOf(key, EscapeScalar(v), v, rest);
  }

  lemma ReadPlainField(key: string, v: string, rest: string)
    requires IsPlainField(v)
    ensures ReadField(QuotedLine(key, v, rest), key) == Some(Read(v, rest))
  {
    ReadPlain(v, "\n" + rest);
    ReadFieldOf(key, v, v, rest);
  }

  /** A closed quoted scalar and its line break read back as the scalar's value. */
  lemma ReadQuotedLineOf(text: string, v: string, rest: string)
    requires ReadScalar(text + "\"" + ("\n" + rest)) == Some(Read(v, "\n" + rest))
    ensures ReadQuotedLine(text + "\"\n" + rest) == Some(Read(v, rest))
  {
    assert text + "\"\n" + rest == text + "\"" + ("\n" + rest);
    StripPrefixOf("\n", rest);
  }

  /** An optional line that is present reads back as its value. */
  lemma ReadOptionalPresent(key: string, value: string, escape: string -> string, rest: string)
    requires |key| > 0 && value != ""
    requires ReadScalar(escape(value) + "\"" + ("\n" + rest)) == Some(Read(value, "\n" + rest))
    ensures ReadOptionalField(OptionalLine(key, Some(value), escape, rest), key) == Some(Read(Some(value), rest))
  {
    var text := escape(value);
    assert OptionalLine(key, Some(value), escape, rest) == (key + ": \"") + (text + "\"\n" + rest);
    StripPrefixOf(key + ": \"", text + "\"\n" + rest);
    ReadQuotedLineOf(text, value, rest);
  }

  /** An absent optional line reads back as absent, when the next line has another key. */
  lemma ReadOptionalAbsent(key: string, escape: string -> string, rest: string)
    requires |key| > 0 && |rest| > 0 && rest[0] != key[0]
    ensures ReadOptionalField(OptionalLine(key, None, escape, rest), key) == Some(Read(None, rest))
  {
    NoPrefixOnMismatch(rest, key + ": \"");
  }

  lemma ReadOptionalOf(key: string, value: Option<string>, escape: string -> string, rest: string)
    requires |key| > 0 && |rest| > 0 && rest[0] != key[0]
    requires value.Some? ==> value.value != ""
    requires value.Some? ==> ReadScalar(escape(value.value) + "\"" + ("\n" + rest)) == Some(Read(value.value, "\n" + rest))
    ensures ReadOptionalField(OptionalLine(key, value, escape, rest), key) == Some(Read(value, rest))
  {
    if value.Some? {
      ReadOptionalPresent(key, value.value, escape, rest);
    } else {
      ReadOptionalAbsent(key, escape, rest);
    }
  }

  /** One item line reads back as its item, followed by the lines after it. */
  lemma ReadItemLine(item: string, after: string)
    requires OneLine(item)
    ensures StripPrefix("  - \"" + EscapeScalar(item) + "\"\n" + after, "  - \"") == Some(EscapeScalar(item) + "\"\n" + after)
    ensures ReadQuotedLine(EscapeScalar(item) + "\"\n" + after) == Some(Read(item, after))
  {
    assert "  - \"" + EscapeScalar(item) + "\"\n" + after == "  - \"" + (EscapeScalar(item) + "\"\n" + after);
    StripPrefixOf("  - \"", EscapeScalar(item) + "\"\n" + after);
    ReadEscaped(item, "\n" + after);
    ReadQuotedLineOf(EscapeScalar(item), item, after);
  }

  /** Item lines read back as their items. */
  lemma {:induction false} ReadItemsOf(items: seq<string>, rest: string)
    requires forall i :: 0 <= i < |items| ==> OneLine(items[i])
    requires |rest| > 0 && rest[0] != ' '
    ensures ReadItems(ItemLines(items, EscapeScalar, rest)) == Some(Read(items, rest))
    decreases |items|
  {
    if items == [] {
      NoPrefixOnMismatch(rest, "  - \"");
    } else {
      var after := ItemLines(items[1..], EscapeScalar, rest);
      ReadItemLine(items[0], after);
      ReadItemsOf(items[1..], rest);
      assert [items[0]] + items[1..] == items;
    }
  }

  /** A list block reads back as its items, and an absent one as no items. */
  lemma ReadListOf(key: string, items: seq<string>, rest: string)
    requires |key| > 0 && |rest| > 0 && rest[0] != key[0] && rest[0] != ' '
    requires forall i :: 0 <= i < |items| ==> OneLine(items[i])
    ensures ReadList(ListBlock(key, items, EscapeScalar, rest), key) == Some(Read(items, rest))
  {
    if items == [] {
      NoPrefixOnMismatch(rest, key + ":\n");
    } else {
      StripPrefixOf(key + ":\n", ItemLines(items, EscapeScalar, rest));
      ReadItemsOf(items, rest);
    }
  }

  /** The level line and the closing marker read back as the level and the body. */
  lemma ReadClosingOf(level: nat, body: string)
    ensures ReadClosing(Closing(level, body)) == Some(Read(level, body))
  {
    var digits := Decimal.FromNat(level);
    ReadClosingDigits(digits, body);
    Decimal.ToNatFromNat(level);
  }

  /** A non-empty numeral after `level: `, then the closing marker, reads back as its value and the body. */
  lemma ReadClosingDigits(digits: string, body: string)
    requires |digits| > 0 && Decimal.AllDigits(digits)
    ensures ReadClosing("level: " + digits + "\n---\n\n" + body) == Some(Read(Decimal.ToNat(digits), body))
  {
    var tail := "\n---\n\n" + body;
    var after := digits + tail;
    var s := "level: " + digits + "\n---\n\n" + body;
    assert s == "level: " + after;
    StripPrefixOf("level: ", after);
    Decimal.DigitRunOfNumeral(digits, tail);
    assert after[..|digits|] == digits && after[|digits|..] == tail;
    StripPrefixOf("\n---\n\n", body);
    ReadClosingFrom(s, after, digits, body);
  }

  lemma ReadClosingFrom(s: string, after: string, digits: string, body: string)
    requires StripPrefix(s, "level: ") == Some(after)
    requires 0 < |digits| == Decimal.DigitRun(after) && after[..|digits|] == digits && Decimal.AllDigits(digits)
    requires StripPrefix(after[|digits|..], "\n---\n\n") == Some(body)
    ensures ReadClosing(s) == Some(Read(Decimal.ToNat(digits), body))
  {
  }

  /** The optional lines, the level and the body read back as written. */
  lemma ReadTailOf(h: Header, body: string)
    requires RestWellFormed(h)
    ensures ReadTail(Tail(h, EscapeScalar, body))
      == Some(Read(TailFields(h.category, h.tags, h.hierarchy, h.parent, h.level), body))
  {
    var c4 := Closing(h.level, body);
    var c3 := OptionalLine("parent", h.parent, Verbatim, c4);
    var c2 := ListBlock("hierarchy", h.hierarchy, EscapeScalar, c3);
    var c1 := ListBlock("tags", h.tags, EscapeScalar, c2);
    ReadClosingOf(h.level, body);
    if h.parent.Some? {
      ReadPlain(h.parent.value, "\n" + c4);
    }
    ReadOptionalOf("parent", h.parent, Verbatim, c4);
    assert c3[0] == 'p' || c3[0] == 'l';
    ReadListOf("hierarchy", h.hierarchy, c3);
    assert c2[0] == 'h' || c2[0] == 'p' || c2[0] == 'l';
    ReadListOf("tags", h.tags, c2);
    assert c1[0] == 't' || c1[0] == 'h' || c1[0] == 'p' || c1[0] == 'l';
    if h.category.Some? {
      ReadEscaped(h.category.value, "\n" + c1);
    }
    ReadOptionalOf("category", h.category, EscapeScalar, c1);
  }

  /**
   * A file whose title text reads back as `h.title`, and whose other lines
   * are laid out for `h`, reads back as `h` and the body.
   */
  lemma ReadDocumentWith(h: Header, titleText: string, body: string)
    requires RestWellFormed(h) && ReadsAs(titleText, h.title)
    ensures ParseDocument("---\n" + QuotedLine("title", titleText, AfterTitle(h, EscapeScalar, body))) == Some(Read(h, body))
  {
    var tail := Tail(h, EscapeScalar, body);
    var c3 := QuotedLine("notionId", h.notionId, tail);
    var c2 := QuotedLine("date", h.date, c3);
    var c1 := AfterTitle(h, EscapeScalar, body);
    StripPrefixOf("---\n", QuotedLine("title", titleText, c1));
    assert ReadScalar(titleText + "\"" + ("\n" + c1)) == Some(Read(h.title, "\n" + c1));
    ReadFieldOf("title", titleText, h.title, c1);
    ReadEscapedField("description", h.description, c2);
    ReadPlainField("date", h.date, c3);
    ReadPlainField("notionId", h.notionId, tail);
    ReadTailOf(h, body);
  }

  /** Every well-formed header, with any body, reads back from its file. */
  lemma DocumentRoundTrip(h: Header, body: string)
    requires WellFormed(h)
    ensures ParseDocument(Document(h, body)) == Some(Read(h, body))
  {
    ReadsAsEscaped(h.title);
    ReadDocumentWith(h, EscapeScalar(h.title), body);
  }

  // ---------------------------------------------------------------------
  // The layout as written, against the escaped layout
  // ---------------------------------------------------------------------

  predicate NoBackslash(s: string) {
    '\\' !in s
  }

  /** No field but possibly the title holds a backslash. */
  predicate RestNoBackslash(h: Header) {
    && NoBackslash(h.description)
    && (h.category.Some? ==> NoBackslash(h.category.value))
    && (forall i :: 0 <= i < |h.tags| ==> NoBackslash(h.tags[i]))
    && (forall i :: 0 <= i < |h.hierarchy| ==> NoBackslash(h.hierarchy[i]))
  }

  /** Without backslashes, escaping only quotes is the full escaping. */
  lemma {:induction false} EscapesAgree(v: string)
    requires NoBackslash(v)
    ensures EscapeQuotes(v) == EscapeScalar(v)
    decreases |v|
  {
    if |v| > 0 {
      assert NoBackslash(v[1..]) by {
        assert forall i :: 0 <= i < |v[1..]| ==> v[1..][i] == v[i + 1];
      }
      EscapesAgree(v[1..]);
    }
  }

  lemma {:induction false} ItemLinesAgree(items: seq<string>, rest: string)
    requires forall i :: 0 <= i < |items| ==> NoBackslash(items[i])
    ensures ItemLines(items, EscapeQuotes, rest) == ItemLines(items, EscapeScalar, rest)
    decreases |items|
  {
    if items != [] {
      EscapesAgree(items[0]);
      ItemLinesAgree(items[1..], rest);
    }
  }

  lemma AfterTitleAgrees(h: Header, body: string)
    requires RestNoBackslash(h)
    ensures AfterTitle(h, EscapeQuotes, body) == AfterTitle(h, EscapeScalar, body)
  {
    EscapesAgree(h.description);
    if h.category.Some? {
      EscapesAgree(h.category.value);
    }
    ItemLinesAgree(h.tags, ListBlock("hierarchy", h.hierarchy, EscapeQuotes, OptionalLine("parent", h.parent, Verbatim, Closing(h.level, body))));
    ItemLinesAgree(h.hierarchy, OptionalLine("parent", h.parent, Verbatim, Closing(h.level, body)));
  }

  /** The file as written equals the escaped file when no field holds a backslash. */
  lemma AsWrittenAgrees(h: Header, body: string)
    requires NoBackslash(h.title) && RestNoBackslash(h)
    ensures DocumentAsWritten(h, body) == Document(h, body)
  {
    EscapesAgree(h.title);
    AfterTitleAgrees(h, body);
  }

  /** So the file as written reads back whenever no field holds a backslash. */
  lemma AsWrittenRoundTrip(h: Header, body: string)
    requires WellFormed(h) && NoBackslash(h.title) && RestNoBackslash(h)
    ensures ParseDocument(DocumentAsWritten(h, body)) == Some(Read(h, body))
  {
    AsWrittenAgrees(h, body);
    DocumentRoundTrip(h, body);
  }

  /** The two characters `\` `n` in a quoted scalar read as a line break. */
  lemma BackslashNReadsAsLineBreak()
    ensures ReadsAs(['\\', 'n'], "\n")
  {
    forall rest ensures ReadScalar(['\\', 'n'] + "\"" + rest) == Some(Read("\n", rest)) {
      var s := ['\\', 'n'] + "\"" + rest;
      assert s[0] == '\\' && s[1] == 'n' && s[2..] == "\"" + rest;
      assert Unescape('n') == Some('\n');
      ReadScalarQuote(rest);
      assert ReadScalar(s) == Prepend('\n', ReadScalar(s[2..]));
      assert ['\n'] + "" == "\n";
    }
  }

  /**
   * A title holding a backslash followed by `n`, written as the page's code
   * writes it, reads back with a line break in its place: the other fields
   * and the body survive, the title does not.
   */
  lemma AsWrittenMisreadsBackslash(h: Header, body: string)
    requires h.title == ['\\', 'n']
    requires RestWellFormed(h) && RestNoBackslash(h)
    ensures ParseDocument(DocumentAsWritten(h, body)) == Some(Read(h.(title := "\n"), body))
    ensures ParseDocument(DocumentAsWritten(h, body)) != Some(Read(h, body))
  {
    var h' := h.(title := "\n");
    assert EscapeQuotes(h.title) == h.title;
    AfterTitleAgrees(h, body);
    assert AfterTitle(h', EscapeScalar, body) == AfterTitle(h, EscapeScalar, body);
    BackslashNReadsAsLineBreak();
    ReadDocumentWith(h', h.title, body);
  }

  /**
   * The header a page gets is well formed when its texts are printable
   * and on one line and its date, id and parent id hold no quote or
   * backslash.
   */
  lemma HeaderOfWellFormed(title: string, description: string, date: string, notionId: string,
                           parentTitle: Option<string>, parent: Option<string>, hierarchy: seq<string>, level: nat)
    requires OneLine(title) && OneLine(description)
    requires IsPlainField(date) && IsPlainField(notionId)
    requires parentTitle.Some? ==> OneLine(parentTitle.value)
    requires parent.Some? ==> IsPlainField(parent.value)
    requires forall i :: 0 <= i < |hierarchy| ==> OneLine(hierarchy[i])
    ensures WellFormed(HeaderOf(title, description, date, notionId, parentTitle, parent, hierarchy, level))
  {
    var h := HeaderOf(title, description, date, notionId, parentTitle, parent, hierarchy, level);
    if h.parent.Some? {
      FilterPreserves(parent.value, IsNotHyphen, c => c != '"' && c != '\\' && PrintableChar(c));
      assert forall i :: 0 <= i < |h.parent.value| ==> h.parent.value[i] != '"' && h.parent.value[i] != '\\' && PrintableChar(h.parent.value[i]);
    }
  }
}
