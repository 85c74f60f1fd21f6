/**
 * The feed document (scripts/generate_appcast.py, lines 93-111 and 118): seven
 * header lines, six lines per item in item order, two closing lines, joined
 * with newlines.
 */
module Appcast {
  import opened Wrappers
  import opened Releases
  import opened Derivation
  import opened Escaping

  /**
   * `sax.escape` of a value that is `None` raises, which ends the program:
   * the position of the item and the key whose value was missing.
   */
  datatype RenderError = MissingText(item: nat, field: string)

  // The fixed header lines. The long ones are written as concatenations of
  // short literals, which keeps the verifier's encoding of them small.
  const XmlDeclaration := "<?xml version=\"1.0\"" + " encoding=\"utf-8\"?>"
  const RssOpen := "<rss version=\"2.0\""
    + " xmlns:sparkle=" + "\"http://www." + "andymatuschak.org" + "/xml-namespaces" + "/sparkle\""
    + " xmlns:dc=" + "\"http://purl.org" + "/dc/elements/1.1/\">"
  const Description := "<description>" + "App updates" + " generated from" + " GitHub Releases" + "</description>"
  /** The continuation lines of the warning comment are indented by 17 spaces. */
  const Indent := "                 "
  const UnsignedWarning := "<!-- WARNING:" + " This generated" + " appcast does NOT" + " include Sparkle" + " signatures."
    + "\n" + Indent + "Do NOT use" + " unsigned updates" + " in production."
    + "\n" + Indent + "Sign your update" + " archives with" + " EdDSA (Ed25519)" + " and include"
    + " sparkle:" + "edSignature" + " attributes in" + " the enclosure" + " elements. -->"
  const Footer: seq<string> := ["</channel>", "</rss>"]

  function RepoUrl(repo: string): string {
    "https://github.com/" + repo
  }

  /** `<tag>text</tag>`. */
  function Element(tag: string, text: string): string {
    "<" + tag + ">" + text + "</" + tag + ">"
  }

  /** The text between the opening and the closing tag of a one-line element. */
  function ElementText(line: string, tag: string): string
    requires |line| >= 2 * |tag| + 5
  {
    line[|tag| + 2 .. |line| - |tag| - 3]
  }

  lemma ElementTextOf(tag: string, text: string)
    ensures |Element(tag, text)| >= 2 * |tag| + 5
    ensures ElementText(Element(tag, text), tag) == text
  {
    var line := Element(tag, text);
    assert line == ("<" + tag + ">") + text + ("</" + tag + ">");
  }

  /** The channel's seven opening lines. */
  function Header(repo: string): seq<string> {
    [ XmlDeclaration,
      RssOpen,
      "<channel>",
      Element("title", Escape(repo) + " updates"),
      Element("link", Escape(RepoUrl(repo))),
      Description,
      UnsignedWarning ]
  }

  /** Field `field` of item `k`, escaped; escaping a missing value fails with an error naming it. */
  function EscapeField(k: nat, field: string, v: Option<string>): Result<string, RenderError> {
    match v
    case None => Failure(MissingText(k, field))
    case Some(s) => Success(Escape(s))
  }

  function Enclosure(url: string, version: string, length: string): string {
    "<enclosure" + " url=\"" + url + "\"" + " sparkle:version=\"" + version + "\"" + " sparkle:"
      + "shortVersionString=\"" + version + "\"" + " length=\"" + length + "\"" + " type=\"application/"
      + "octet-stream\"" + " />"
  }

  /** The six lines of item `k`, or the first of its fields that cannot be escaped. */
  function ItemLines(k: nat, it: Item): Result<seq<string>, RenderError> {
    match EscapeField(k, "title", it.title)
    case Failure(e) => Failure(e)
    case Success(title) =>
      match EscapeField(k, "notes", it.notes)
      case Failure(e) => Failure(e)
      case Success(notes) =>
        match EscapeField(k, "url", it.url)
        case Failure(e) => Failure(e)
        case Success(url) =>
          Success([ "<item>",
                    Element("title", title),
                    Element("sparkle:releaseNotesLink", notes),
                    Element("pubDate", Escape(it.pubDate)),
                    Enclosure(url, Escape(it.version), Escape(it.length)),
                    "</item>" ])
  }

  /** Every text field of the item that goes through `sax.escape` is present. */
  predicate Renderable(it: Item) {
    it.title.Some? && it.notes.Some? && it.url.Some?
  }

  /**
   * An item renders exactly when its title, notes link and download URL are
   * present; otherwise the error names the first missing one, in the order
   * the source escapes them. Rendered, it is six lines from `<item>` to
   * `</item>`.
   */
  lemma ItemLinesOutcome(k: nat, it: Item)
    ensures ItemLines(k, it).Success? <==> Renderable(it)
    ensures ItemLines(k, it).Failure? ==>
      ItemLines(k, it).error ==
        if it.title.None? then MissingText(k, "title")
        else if it.notes.None? then MissingText(k, "notes")
        else MissingText(k, "url")
    ensures ItemLines(k, it).Success? ==>
      var ls := ItemLines(k, it).value;
      |ls| == 6 && ls[0] == "<item>" && ls[5] == "</item>"
  {
  }

  /** The title, notes link and date elements of a rendered item read back as the item's own values. */
  lemma ItemLinesReadBack(k: nat, it: Item)
    requires Renderable(it)
    ensures ItemLines(k, it).Success?
    ensures var ls := ItemLines(k, it).value;
      && |ls| == 6
      && |ls[1]| >= 15 && Unescape(ElementText(ls[1], "title")) == it.title.value
      && |ls[2]| >= 53 && Unescape(ElementText(ls[2], "sparkle:releaseNotesLink")) == it.notes.value
      && |ls[3]| >= 19 && Unescape(ElementText(ls[3], "pubDate")) == it.pubDate
  {
    ElementTextOf("title", Escape(it.title.value));
    ElementTextOf("sparkle:releaseNotesLink", Escape(it.notes.value));
    ElementTextOf("pubDate", Escape(it.pubDate));
    EscapeRoundTrip(it.title.value);
    EscapeRoundTrip(it.notes.value);
    EscapeRoundTrip(it.pubDate);
  }

  /** The item lines of a list of items, rendered in order; the first failure wins. */
  function Body(items: seq<Item>): Result<seq<string>, RenderError>
    decreases |items|
  {
    if items == [] then Success([])
    else
      match Body(items[..|items| - 1])
      case Failure(e) => Failure(e)
      case Success(ls) =>
        match ItemLines(|items| - 1, items[|items| - 1])
        case Failure(e) => Failure(e)
        case Success(six) => Success(ls + six)
  }

  /** The whole list of lines of the feed. */
  function Document(repo: string, items: seq<Item>): Result<seq<string>, RenderError> {
    match Body(items)
    case Failure(e) => Failure(e)
    case Success(body) => Success(Header(repo) + body + Footer)
  }

  /** The item section renders when the earlier items and the last one do. */
  lemma BodySuccessStep(items: seq<Item>)
    requires items != []
    ensures Body(items).Success? <==>
      Body(items[..|items| - 1]).Success? && ItemLines(|items| - 1, items[|items| - 1]).Success?
  {
  }

  lemma {:induction false} BodySucceeds(items: seq<Item>)
    ensures Body(items).Success? <==> forall k :: 0 <= k < |items| ==> Renderable(items[k])
    decreases |items|
  {
    if items != [] {
      var n := |items| - 1;
      var init := items[..n];
      BodySucceeds(init);
      BodySuccessStep(items);
      ItemLinesOutcome(n, items[n]);
      if Body(items).Success? {
        forall k | 0 <= k < |items| ensures Renderable(items[k]) {
          if k < n {
            assert init[k] == items[k];
          }
        }
      } else if Body(init).Failure? {
        var k :| 0 <= k < n && !Renderable(init[k]);
        assert init[k] == items[k];
      } else {
        assert !Renderable(items[n]);
      }
    }
  }

  /** A rendered item section is the earlier items' lines followed by the last item's. */
  lemma BodyLast(items: seq<Item>)
    requires items != [] && Body(items).Success?
    ensures Body(items[..|items| - 1]).Success? && ItemLines(|items| - 1, items[|items| - 1]).Success?
    ensures Body(items).value == Body(items[..|items| - 1]).value + ItemLines(|items| - 1, items[|items| - 1]).value
  {
  }

  lemma SliceOfAppend<T>(a: seq<T>, b: seq<T>, i: nat, m: nat)
    requires i + m <= |a|
    ensures (a + b)[i .. i + m] == a[i .. i + m]
  {
  }

  lemma {:induction false} BodyLength(items: seq<Item>)
    requires Body(items).Success?
    ensures |Body(items).value| == 6 * |items|
    decreases |items|
  {
    if items != [] {
      var n := |items| - 1;
      BodyLast(items);
      BodyLength(items[..n]);
      ItemLinesOutcome(n, items[n]);
    }
  }

  /** Item `k` renders, and its lines are the six lines from position 6k of the item section. */
  lemma {:induction false} BodySlice(items: seq<Item>, k: nat)
    requires Body(items).Success? && k < |items|
    ensures |Body(items).value| == 6 * |items|
    ensures ItemLines(k, items[k]).Success? && Body(items).value[6 * k .. 6 * k + 6] == ItemLines(k, items[k]).value
    decreases |items|
  {
    var n := |items| - 1;
    var init := items[..n];
    BodyLast(items);
    BodyLength(items);
    BodyLength(init);
    var ls, six := Body(init).value, ItemLines(n, items[n]).value;
    if k < n {
      BodySlice(init, k);
      assert init[k] == items[k];
      SliceOfAppend(ls, six, 6 * k, 6);
    } else {
      ItemLinesOutcome(n, items[n]);
      assert 6 * k == |ls|;
      assert (ls + six)[|ls| .. |ls| + |six|] == six;
    }
  }

  lemma BodyLines(items: seq<Item>)
    requires Body(items).Success?
    ensures |Body(items).value| == 6 * |items|
    ensures forall k :: 0 <= k < |items| ==>
      ItemLines(k, items[k]).Success? && Body(items).value[6 * k .. 6 * k + 6] == ItemLines(k, items[k]).value
  {
    BodyLength(items);
    forall k | 0 <= k < |items|
      ensures ItemLines(k, items[k]).Success? && Body(items).value[6 * k .. 6 * k + 6] == ItemLines(k, items[k]).value
    {
      BodySlice(items, k);
    }
  }

  lemma {:induction false} BodyFailure(items: seq<Item>)
    requires Body(items).Failure?
    ensures Body(items).error.item < |items|
    ensures ItemLines(Body(items).error.item, items[Body(items).error.item]) == Failure(Body(items).error)
    ensures forall k :: 0 <= k < Body(items).error.item ==> Renderable(items[k])
    decreases |items|
  {
    var n := |items| - 1;
    var init := items[..n];
    assert forall k :: 0 <= k < n ==> init[k] == items[k];
    if Body(init).Failure? {
      BodyFailure(init);
    } else {
      BodySucceeds(init);
      ItemLinesOutcome(n, items[n]);
    }
  }

  lemma SliceAfterPrefix<T>(h: seq<T>, b: seq<T>, f: seq<T>, i: nat, n: nat)
    requires i + n <= |b|
    ensures (h + b + f)[|h| + i .. |h| + i + n] == b[i .. i + n]
  {
  }

  /** The lines of a rendered feed: header, item section, closing lines. */
  lemma DocumentParts(repo: string, items: seq<Item>)
    requires Body(items).Success?
    ensures Document(repo, items) == Success(Header(repo) + Body(items).value + Footer)
  {
  }

  /** Where the parts of `h + b + f` sit, for a seven-line head and a two-line tail. */
  lemma PartsLayout<T>(h: seq<T>, b: seq<T>, f: seq<T>)
    requires |h| == 7 && |f| == 2
    ensures var ls := h + b + f;
      && |ls| == 9 + |b|
      && ls[..7] == h
      && ls[|ls| - 2] == f[0] && ls[|ls| - 1] == f[1]
  {
    var ls := h + b + f;
    assert ls[..7] == h;
  }

  /** Item `k`'s six lines sit after the seven header lines and the `k` items before it. */
  lemma ItemSlices(h: seq<string>, items: seq<Item>)
    requires |h| == 7 && Body(items).Success?
    ensures |Body(items).value| == 6 * |items|
    ensures forall k :: 0 <= k < |items| ==>
      ItemLines(k, items[k]).Success? && (h + Body(items).value + Footer)[7 + 6 * k .. 13 + 6 * k] == ItemLines(k, items[k]).value
  {
    BodyLines(items);
    var b := Body(items).value;
    forall k | 0 <= k < |items| ensures (h + b + Footer)[7 + 6 * k .. 13 + 6 * k] == ItemLines(k, items[k]).value {
      SliceAfterPrefix(h, b, Footer, 6 * k, 6);
    }
  }

  /** A rendered feed's lines, part by part. */
  lemma DocumentLines(repo: string, items: seq<Item>)
    requires Body(items).Success?
    ensures Document(repo, items).Success?
    ensures var ls := Document(repo, items).value;
      && |ls| == 9 + 6 * |items|
      && ls[..7] == Header(repo)
      && (forall k :: 0 <= k < |items| ==>
            ItemLines(k, items[k]).Success? && ls[7 + 6 * k .. 13 + 6 * k] == ItemLines(k, items[k]).value)
      && ls[|ls| - 2] == "</channel>" && ls[|ls| - 1] == "</rss>"
  {
    DocumentParts(repo, items);
    PartsLayout(Header(repo), Body(items).value, Footer);
    ItemSlices(Header(repo), items);
  }

  /**
   * The feed renders exactly when every item does. Then it has 9 + 6n lines:
   * the seven header lines, the six lines of each item in item order, and the
   * two closing lines. Otherwise the error is that of the first item that
   * cannot be rendered.
   */
  lemma DocumentShape(repo: string, items: seq<Item>)
    ensures Document(repo, items).Success? <==> forall k :: 0 <= k < |items| ==> Renderable(items[k])
    ensures Document(repo, items).Success? ==>
      var ls := Document(repo, items).value;
      && |ls| == 9 + 6 * |items|
      && ls[..7] == Header(repo)
      && (forall k :: 0 <= k < |items| ==> ls[7 + 6 * k .. 13 + 6 * k] == ItemLines(k, items[k]).value)
      && ls[|ls| - 2] == "</channel>" && ls[|ls| - 1] == "</rss>"
    ensures Document(repo, items).Failure? ==>
      var e := Document(repo, items).error;
      && e.item < |items| && ItemLines(e.item, items[e.item]) == Failure(e)
      && forall k :: 0 <= k < e.item ==> Renderable(items[k])
  {
    BodySucceeds(items);
    if Body(items).Failure? {
      BodyFailure(items);
    } else {
      DocumentLines(repo, items);
    }
  }

  /** The channel title reads back as the repository followed by ` updates`. */
  lemma HeaderTitle(repo: string)
    ensures |Header(repo)| == 7
    ensures |Header(repo)[3]| >= 15 && Unescape(ElementText(Header(repo)[3], "title")) == repo + " updates"
  {
    ElementTextOf("title", Escape(repo) + " updates");
    TitleText(repo);
  }

  lemma TitleText(repo: string)
    ensures Unescape(Escape(repo) + " updates") == repo + " updates"
  {
    var t := " updates";
    assert forall i | 0 <= i < |t| :: t[i] != '&';
    UnescapeEscapedThenPlain(repo, t);
  }

  /** The channel link reads back as the repository's page. */
  lemma HeaderLink(repo: string)
    ensures |Header(repo)[4]| >= 13 && Unescape(ElementText(Header(repo)[4], "link")) == "https://github.com/" + repo
  {
    ElementTextOf("link", Escape(RepoUrl(repo)));
    EscapeRoundTrip(RepoUrl(repo));
  }

  /** The lines with one newline between each two of them, and none after the last. */
  function Join(lines: seq<string>): string
    decreases |lines|
  {
    if lines == [] then ""
    else if |lines| == 1 then lines[0]
    else Join(lines[..|lines| - 1]) + "\n" + lines[|lines| - 1]
  }

  /** Joining two non-empty runs of lines puts a newline between their two texts. */
  lemma {:induction false} JoinAppend(a: seq<string>, b: seq<string>)
    requires a != [] && b != []
    ensures Join(a + b) == Join(a) + "\n" + Join(b)
    decreases |b|
  {
    var ab := a + b;
    var last := b[|b| - 1];
    assert ab[|ab| - 1] == last;
    if |b| == 1 {
      assert ab[..|ab| - 1] == a;
    } else {
      var init := b[..|b| - 1];
      assert ab[..|ab| - 1] == a + init;
      JoinAppend(a, init);
      var ja, ji := Join(a), Join(init);
      assert Join(ab) == (ja + "\n" + ji) + "\n" + last;
      assert Join(b) == ji + "\n" + last;
    }
  }

  /** The position of the last newline in `s`, if any. */
  function LastNewline(s: string): (r: Option<nat>)
    ensures r.None? <==> '\n' !in s
    ensures r.Some? ==> r.value < |s| && s[r.value] == '\n' && '\n' !in s[r.value + 1..]
  {
    if s == [] then None
    else if s[|s| - 1] == '\n' then Some(|s| - 1)
    else
      var r := LastNewline(s[..|s| - 1]);
      assert s[..|s| - 1] + [s[|s| - 1]] == s;
      if r.Some? then assert s[r.value + 1..] == s[..|s| - 1][r.value + 1..] + [s[|s| - 1]]; r
      else r
  }

  /** Splitting text at its newlines, as a reader of the file does. */
  function Split(s: string): seq<string>
    decreases |s|
  {
    match LastNewline(s)
    case None => [s]
    case Some(i) => Split(s[..i]) + [s[i + 1..]]
  }

  /** The last newline of `j + "\n" + last` is the one before `last`. */
  lemma LastNewlineBefore(j: string, last: string)
    requires '\n' !in last
    ensures LastNewline(j + "\n" + last) == Some(|j|)
  {
    var s := j + "\n" + last;
    assert s[|j|] == '\n';
    assert s[|j| + 1..] == last;
  }

  /** The lines can be recovered from the text when none of them holds a newline. */
  lemma {:induction false} SplitJoin(lines: seq<string>)
    requires |lines| > 0
    requires forall k :: 0 <= k < |lines| ==> '\n' !in lines[k]
    ensures Split(Join(lines)) == lines
    decreases |lines|
  {
    if |lines| > 1 {
      var init, last := lines[..|lines| - 1], lines[|lines| - 1];
      SplitJoin(init);
      var j := Join(init);
      LastNewlineBefore(j, last);
      var s := j + "\n" + last;
      assert s[..|j|] == j && s[|j| + 1..] == last;
    }
  }

  /** The released text: the feed's lines joined with newlines. */
  function Generate(repo: string, releases: seq<Release>, toRfc: string -> string): Result<string, RenderError> {
    match Document(repo, Items(releases, toRfc))
    case Failure(e) => Failure(e)
    case Success(ls) => Success(Join(ls))
  }

  /**
   * The feed is produced exactly when every release that has a preferred
   * asset yields an item whose title, notes link and download URL are present.
   */
  lemma GenerateOutcome(repo: string, rs: seq<Release>, toRfc: string -> string)
    ensures Generate(repo, rs, toRfc).Success? <==>
      forall i :: 0 <= i < |rs| && DeriveItem(rs[i], toRfc).Some? ==> Renderable(DeriveItem(rs[i], toRfc).value)
  {
    var items := Items(rs, toRfc);
    DocumentShape(repo, items);
    ItemsFollowReleases(rs, toRfc);
    var os := Origins(rs);
    if forall k :: 0 <= k < |items| ==> Renderable(items[k]) {
      forall i | 0 <= i < |rs| && DeriveItem(rs[i], toRfc).Some?
        ensures Renderable(DeriveItem(rs[i], toRfc).value)
      {
        DeriveItemFields(rs[i], toRfc);
        assert i in os;
        var k :| 0 <= k < |os| && os[k] == i;
        assert Renderable(items[k]);
      }
    } else {
      var k :| 0 <= k < |items| && !Renderable(items[k]);
      assert DeriveItem(rs[os[k]], toRfc) == Some(items[k]);
    }
  }

  /** Lines ending with `x` and `y` join to text ending with a newline, `x`, a newline and `y`. */
  lemma JoinLastTwo(init: seq<string>, x: string, y: string)
    requires init != []
    ensures var t, tail := Join(init + [x, y]), "\n" + x + "\n" + y;
      |t| >= |tail| && t[|t| - |tail|..] == tail
  {
    JoinAppend(init, [x, y]);
    assert [x, y][..1] == [x];
    var tail := "\n" + x + "\n" + y;
    assert Join(init + [x, y]) == Join(init) + tail;
    EndOfAppend(Join(init), tail);
  }

  lemma EndOfAppend<T>(xs: seq<T>, ys: seq<T>)
    ensures (xs + ys)[|xs + ys| - |ys|..] == ys
  {
  }

  /** Lines ending with the two closing lines join to text ending with them. */
  lemma JoinEnding(ls: seq<string>)
    requires |ls| >= 3 && ls[|ls| - 2] == "</channel>" && ls[|ls| - 1] == "</rss>"
    ensures var t := Join(ls); |t| >= 18 && t[|t| - 18..] == "\n</channel>\n</rss>"
  {
    var init := ls[..|ls| - 2];
    assert ls == init + ["</channel>", "</rss>"];
    JoinLastTwo(init, "</channel>", "</rss>");
  }

  /** A feed that is produced ends with the lines closing the channel and the document. */
  lemma FeedEnding(repo: string, rs: seq<Release>, toRfc: string -> string)
    ensures Generate(repo, rs, toRfc).Success? ==>
      var t := Generate(repo, rs, toRfc).value;
      |t| >= 18 && t[|t| - 18..] == "\n</channel>\n</rss>"
  {
    var items := Items(rs, toRfc);
    DocumentShape(repo, items);
    if Document(repo, items).Success? {
      JoinEnding(Document(repo, items).value);
    }
  }

  lemma {:induction false} BodyFailureStays(items: seq<Item>, k: nat)
    requires k <= |items|
    requires Body(items[..k]).Failure?
    ensures Body(items) == Body(items[..k])
    decreases |items| - k
  {
    if k < |items| {
      assert items[..k + 1][..k] == items[..k];
      BodyFailureStays(items, k + 1);
    } else {
      assert items[..k] == items;
    }
  }

  /** Appending keeps the first `n` elements and extends the rest. */
  lemma AppendAfter<T>(xs: seq<T>, ys: seq<T>, n: nat)
    requires n <= |xs|
    ensures (xs + ys)[..n] == xs[..n] && (xs + ys)[n..] == xs[n..] + ys
  {
  }

  /** Six appends one after another are one append of six elements. */
  lemma AppendSix<T>(xs: seq<T>, a: T, b: T, c: T, d: T, e: T, f: T)
    ensures xs + [a] + [b] + [c] + [d] + [e] + [f] == xs + [a, b, c, d, e, f]
  {
  }

  /** One more rendered item extends the rendered item section. */
  lemma BodyExtend(items: seq<Item>, k: nat, ls: seq<string>, six: seq<string>)
    requires k < |items|
    requires Body(items[..k]) == Success(ls) && ItemLines(k, items[k]) == Success(six)
    ensures Body(items[..k + 1]) == Success(ls + six)
  {
    assert items[..k + 1][..k] == items[..k];
  }

  /** The six lines of item `k` appended one by one, or the first field that cannot be escaped. */
  method AppendItem(xml: seq<string>, k: nat, it: Item) returns (res: Result<seq<string>, RenderError>)
    ensures res == match ItemLines(k, it)
                   case Failure(e) => Failure(e)
                   case Success(six) => Success(xml + six)
  {
    var title := EscapeField(k, "title", it.title);
    if title.Failure? {
      return Failure(title.error);
    }
    var notes := EscapeField(k, "notes", it.notes);
    if notes.Failure? {
      return Failure(notes.error);
    }
    var url := EscapeField(k, "url", it.url);
    if url.Failure? {
      return Failure(url.error);
    }
    var version := Escape(it.version);
    var out := xml + ["<item>"];
    out := out + [Element("title", title.value)];
    out := out + [Element("sparkle:releaseNotesLink", notes.value)];
    out := out + [Element("pubDate", Escape(it.pubDate))];
    out := out + [Enclosure(url.value, version, Escape(it.length))];
    out := out + ["</item>"];
    AppendSix(xml, "<item>", Element("title", title.value), Element("sparkle:releaseNotesLink", notes.value),
              Element("pubDate", Escape(it.pubDate)), Enclosure(url.value, version, Escape(it.length)), "</item>");
    return Success(out);
  }

  /** The XML assembly of the source: the header, then six appended lines per item, then the closing lines. */
  method AssembleLines(repo: string, items: seq<Item>) returns (res: Result<seq<string>, RenderError>)
    ensures res == Document(repo, items)
  {
    var repoUrl := RepoUrl(repo);
    var xml := [ XmlDeclaration,
                 RssOpen,
                 "<channel>",
                 Element("title", Escape(repo) + " updates"),
                 Element("link", Escape(repoUrl)),
                 Description,
                 UnsignedWarning ];
    assert xml[7..] == [];
    for k := 0 to |items|
      invariant |xml| >= 7 && xml[..7] == Header(repo)
      invariant Body(items[..k]) == Success(xml[7..])
    {
      assert items[..k + 1][..k] == items[..k];
      var next := AppendItem(xml, k, items[k]);
      if next.Failure? {
        BodyFailureStays(items, k + 1);
        return Failure(next.error);
      }
      ghost var six := ItemLines(k, items[k]).value;
      AppendAfter(xml, six, 7);
      BodyExtend(items, k, xml[7..], six);
      xml := next.value;
    }
    assert items[..|items|] == items;
    ghost var body := xml[7..];
    AppendAfter(xml[..7], body, 7);
    assert xml == Header(repo) + body;
    xml := xml + ["</channel>"];
    xml := xml + ["</rss>"];
    assert xml == Header(repo) + body + Footer;
    res := Success(xml);
  }

  lemma ItemsOfTwo(r1: Release, r2: Release, toRfc: string -> string)
    ensures Items([r1, r2], toRfc) ==
      (if DeriveItem(r1, toRfc).Some? then [DeriveItem(r1, toRfc).value] else [])
      + (if DeriveItem(r2, toRfc).Some? then [DeriveItem(r2, toRfc).value] else [])
  {
    assert [r1, r2][..1] == [r1];
    assert [r1][..0] == [];
    var one := if DeriveItem(r1, toRfc).Some? then [DeriveItem(r1, toRfc).value] else [];
    assert Items([r1], toRfc) == [] + one;
  }

  lemma SingleAssetChoice(a: Asset)
    ensures Selection.Preferred([a]) == if Selection.Rank(a).Some? then Some(0) else None
  {
    assert Selection.Ranks([a]) == [Selection.Rank(a)];
    assert [Selection.Rank(a)][..0] == [];
  }

  lemma ExampleRanks()
    ensures Selection.Rank(Asset(Some("app.zip"), Some("u"), Some(7))) == Some(0)
    ensures Selection.Rank(Asset(Some("notes.txt"), Some("t"), Some(3))).None?
  {
    Selection.LowerKeepsLowercase("app.zip");
    Selection.LowerKeepsLowercase("notes.txt");
    Selection.RankMeansExtension(Asset(Some("app.zip"), Some("u"), Some(7)));
    Selection.RankMeansExtension(Asset(Some("notes.txt"), Some("t"), Some(3)));
    assert "notes.txt"[5..] == ".txt" && "notes.txt"[6..] == "txt";
  }

  lemma ExampleVersion()
    ensures Version(Some("v1.0.0")) == "1.0.0"
  {
    assert "v1.0.0"[1..] == "1.0.0";
  }

  lemma ExampleItems(toRfc: string -> string)
    ensures DeriveItem(Release(Some("v1.0.0"), None, Some("n"), None, None, Some([Asset(Some("app.zip"), Some("u"), Some(7))])), toRfc)
      == Some(Item(Some("v1.0.0"), Some("n"), "", Some("u"), "7", "1.0.0"))
    ensures DeriveItem(Release(Some("v0.9"), Some("Old"), Some("m"), None, None, Some([Asset(Some("notes.txt"), Some("t"), Some(3))])), toRfc).None?
  {
    ExampleRanks();
    SingleAssetChoice(Asset(Some("app.zip"), Some("u"), Some(7)));
    SingleAssetChoice(Asset(Some("notes.txt"), Some("t"), Some(3)));
    ExampleVersion();
  }

  /** A feed with one renderable item has 15 lines. */
  lemma DocumentOfOne(repo: string, it: Item)
    requires Renderable(it)
    ensures Document(repo, [it]).Success? && |Document(repo, [it]).value| == 15
  {
    DocumentShape(repo, [it]);
  }

  /**
   * Two releases, one with a `.zip` asset and tag `v1.0.0`, one with only a
   * `.txt` asset: one item, for the first release, with version `1.0.0`, and
   * a feed of 15 lines.
   */
  lemma TwoReleasesExample(toRfc: string -> string)
    ensures var zip := Asset(Some("app.zip"), Some("u"), Some(7));
      var txt := Asset(Some("notes.txt"), Some("t"), Some(3));
      var r1 := Release(Some("v1.0.0"), None, Some("n"), None, None, Some([zip]));
      var r2 := Release(Some("v0.9"), Some("Old"), Some("m"), None, None, Some([txt]));
      var items := Items([r1, r2], toRfc);
      && items == [Item(Some("v1.0.0"), Some("n"), "", Some("u"), "7", "1.0.0")]
      && Document("owner/app", items).Success?
      && |Document("owner/app", items).value| == 15
  {
    var zip := Asset(Some("app.zip"), Some("u"), Some(7));
    var txt := Asset(Some("notes.txt"), Some("t"), Some(3));
    var r1 := Release(Some("v1.0.0"), None, Some("n"), None, None, Some([zip]));
    var r2 := Release(Some("v0.9"), Some("Old"), Some("m"), None, None, Some([txt]));
    ExampleItems(toRfc);
    ItemsOfTwo(r1, r2, toRfc);
    DocumentOfOne("owner/app", Item(Some("v1.0.0"), Some("n"), "", Some("u"), "7", "1.0.0"));
  }

  /** The whole pipeline over already fetched releases: items, lines, text. */
  method GenerateAppcast(repo: string, releases: seq<Release>, toRfc: string -> string)
    returns (res: Result<string, RenderError>)
    ensures res == Generate(repo, releases, toRfc)
  {
    var items := BuildItems(releases, toRfc);
    var lines := AssembleLines(repo, items);
    match lines
    case Failure(e) => res := Failure(e);
    case Success(ls) => res := Success(Join(ls));
  }
}
