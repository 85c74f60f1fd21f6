/**
 * Turning releases into feed items (scripts/generate_appcast.py, lines 56-90):
 * a release without a preferred asset is skipped; every other release gives
 * one item, in release order.
 */
module Derivation {
  import opened Wrappers
  import opened Releases
  import opened Selection

  /**
   * One feed item. Title, notes link and download URL keep the source's
   * possible absence (`None`), which only the serializer trips over.
   */
  datatype Item = Item(
    title: Option<string>,
    notes: Option<string>,
    pubDate: string,
    url: Option<string>,
    length: string,
    version: string
  )

  /** `s.lstrip('v')`: every leading `v` removed. */
  function LStripV(s: string): (r: string)
    ensures |r| <= |s| && r == s[|s| - |r|..]
    ensures forall k :: 0 <= k < |s| - |r| ==> s[k] == 'v'
    ensures r == [] || r[0] != 'v'
  {
    if s != [] && s[0] == 'v' then LStripV(s[1..]) else s
  }

  /** The three properties of `LStripV`'s contract pin its result down. */
  lemma LStripVUnique(s: string, r: string)
    requires |r| <= |s| && r == s[|s| - |r|..]
    requires forall k :: 0 <= k < |s| - |r| ==> s[k] == 'v'
    requires r == [] || r[0] != 'v'
    ensures r == LStripV(s)
  {
  }

  /** The version: the tag without its leading `v` characters, or empty when there is no tag. */
  function Version(tag: Option<string>): string {
    if Truthy(tag) then LStripV(tag.value) else ""
  }

  /**
   * The version is empty without a tag, never starts with `v`, equals a tag
   * that does not start with `v`, and stripping twice is stripping once.
   */
  lemma VersionProperties(tag: Option<string>)
    ensures !Truthy(tag) ==> Version(tag) == ""
    ensures Version(tag) == [] || Version(tag)[0] != 'v'
    ensures Truthy(tag) && tag.value[0] != 'v' ==> Version(tag) == tag.value
    ensures Version(Some(Version(tag))) == Version(tag)
  {
    if Truthy(tag) {
      var r := LStripV(tag.value);
      if r != [] {
        assert LStripV(r) == r;
      }
    }
  }

  /** Stripping removes all leading `v` characters, not only the first. */
  lemma StripsEveryLeadingV(t: string)
    requires t == [] || t[0] != 'v'
    ensures Version(Some(['v', 'v'] + t)) == t
  {
    var s := ['v', 'v'] + t;
    assert s[1..] == ['v'] + t;
    assert s[1..][1..] == t;
  }

  function DigitChar(d: nat): (c: char)
    requires d < 10
    ensures '0' <= c <= '9'
  {
    ('0' as int + d) as char
  }

  function DigitValue(c: char): nat {
    if '0' <= c <= '9' then c as int - '0' as int else 0
  }

  /** `str(n)` for a natural number: decimal digits, most significant first. */
  function NatToDecimal(n: nat): (r: string)
    ensures |r| >= 1
    ensures forall i :: 0 <= i < |r| ==> '0' <= r[i] <= '9'
    ensures r[0] == '0' ==> n == 0 && r == "0"
  {
    if n < 10 then [DigitChar(n)] else NatToDecimal(n / 10) + [DigitChar(n % 10)]
  }

  /** `str(i)` for any integer: a minus sign before the digits of a negative one. */
  function IntToDecimal(i: int): string {
    if i < 0 then "-" + NatToDecimal(-i) else NatToDecimal(i)
  }

  /** The number a string of decimal digits denotes, as a reader of the feed parses it. */
  function DecimalValue(s: string): nat {
    if s == [] then 0 else DecimalValue(s[..|s| - 1]) * 10 + DigitValue(s[|s| - 1])
  }

  function ParseInt(s: string): int {
    if |s| > 0 && s[0] == '-' then -(DecimalValue(s[1..]) as int) else DecimalValue(s)
  }

  lemma {:induction false} NatToDecimalRoundTrip(n: nat)
    ensures DecimalValue(NatToDecimal(n)) == n
  {
    if n >= 10 {
      NatToDecimalRoundTrip(n / 10);
      var s := NatToDecimal(n);
      assert s[..|s| - 1] == NatToDecimal(n / 10);
    }
  }

  /** The `length` attribute reads back as the asset's size. */
  lemma IntToDecimalRoundTrip(i: int)
    ensures ParseInt(IntToDecimal(i)) == i
  {
    if i < 0 {
      NatToDecimalRoundTrip(-i);
      assert ("-" + NatToDecimal(-i))[1..] == NatToDecimal(-i);
    } else {
      NatToDecimalRoundTrip(i);
    }
  }

  /** The length: the asset's size in decimal, or `0` when it has no size. */
  function Length(a: Asset): string {
    IntToDecimal(a.size.GetOr(0))
  }

  /** The title: the release name when it is non-empty, otherwise the tag. */
  function Title(r: Release): Option<string> {
    Or(r.name, r.tag)
  }

  /** The time stamp: the publication time when it is non-empty, otherwise the creation time. */
  function Stamp(r: Release): Option<string> {
    Or(r.publishedAt, r.createdAt)
  }

  /** The date: the time stamp converted by `toRfc`, or empty when there is no stamp. */
  function PubDate(r: Release, toRfc: string -> string): string {
    if Truthy(Stamp(r)) then toRfc(Stamp(r).value) else ""
  }

  /**
   * The date is converted from `published_at` when that is set, otherwise
   * from `created_at`, and it is empty exactly when neither is set (given a
   * converter that never returns the empty string, as `strftime` with this
   * format does not).
   */
  lemma PubDateFallback(r: Release, toRfc: string -> string)
    requires forall s :: toRfc(s) != ""
    ensures PubDate(r, toRfc) == "" <==> !Truthy(r.publishedAt) && !Truthy(r.createdAt)
    ensures Truthy(r.publishedAt) ==> PubDate(r, toRfc) == toRfc(r.publishedAt.value)
    ensures !Truthy(r.publishedAt) && Truthy(r.createdAt) ==> PubDate(r, toRfc) == toRfc(r.createdAt.value)
  {
  }

  /** The item a release gives, or None when it has no preferred asset. */
  function DeriveItem(r: Release, toRfc: string -> string): Option<Item> {
    var assets := AssetsOf(r);
    match Preferred(assets)
    case None => None
    case Some(i) =>
      Some(Item(Title(r), r.htmlUrl, PubDate(r, toRfc), assets[i].downloadUrl, Length(assets[i]), Version(r.tag)))
  }

  /** A release gives an item exactly when one of its assets has a known extension. */
  predicate Qualifies(r: Release) {
    Preferred(AssetsOf(r)).Some?
  }

  /**
   * A release is skipped exactly when no asset matches (in particular when it
   * has no assets); otherwise its item carries the selected asset's URL and
   * size, the release page, the title falling back to the tag, and the
   * stripped version.
   */
  lemma DeriveItemFields(r: Release, toRfc: string -> string)
    ensures DeriveItem(r, toRfc).None? <==> NoMatch(AssetsOf(r))
    ensures r.assets.None? || r.assets == Some([]) ==> DeriveItem(r, toRfc).None?
    ensures DeriveItem(r, toRfc).Some? ==>
      var it := DeriveItem(r, toRfc).value;
      var a := Selected(AssetsOf(r)).value;
      && it.url == a.downloadUrl
      && it.length == IntToDecimal(a.size.GetOr(0))
      && ParseInt(it.length) == a.size.GetOr(0)
      && (a.size.None? ==> it.length == "0")
      && it.notes == r.htmlUrl
      && (Truthy(r.name) ==> it.title == r.name)
      && (!Truthy(r.name) ==> it.title == r.tag)
      && it.version == Version(r.tag)
      && it.pubDate == PubDate(r, toRfc)
  {
    PreferredIsBest(AssetsOf(r));
    var p := Preferred(AssetsOf(r));
    if p.Some? {
      IntToDecimalRoundTrip(AssetsOf(r)[p.value].size.GetOr(0));
    }
  }

  /** The items of a release list, grown one release at a time as the loop of the source does. */
  function Items(rs: seq<Release>, toRfc: string -> string): (items: seq<Item>)
    decreases |rs|
  {
    if rs == [] then []
    else
      var init := Items(rs[..|rs| - 1], toRfc);
      match DeriveItem(rs[|rs| - 1], toRfc)
      case None => init
      case Some(it) => init + [it]
  }

  /** The positions of the elements of `xs` that satisfy `q`, in list order. */
  function Positions<T>(xs: seq<T>, q: T -> bool): seq<nat>
    decreases |xs|
  {
    if xs == [] then []
    else Positions(xs[..|xs| - 1], q) + if q(xs[|xs| - 1]) then [|xs| - 1] else []
  }

  /** The positions are positions of the list, in strictly increasing order. */
  lemma {:induction false} PositionsIncrease<T>(xs: seq<T>, q: T -> bool)
    ensures |Positions(xs, q)| <= |xs|
    ensures forall k :: 0 <= k < |Positions(xs, q)| ==> Positions(xs, q)[k] < |xs|
    ensures forall k, l :: 0 <= k < l < |Positions(xs, q)| ==> Positions(xs, q)[k] < Positions(xs, q)[l]
    decreases |xs|
  {
    if xs != [] {
      PositionsIncrease(xs[..|xs| - 1], q);
    }
  }

  /** Exactly the elements that satisfy `q` have their position listed. */
  lemma {:induction false} PositionsExact<T>(xs: seq<T>, q: T -> bool)
    ensures forall i :: 0 <= i < |xs| ==> (q(xs[i]) <==> i in Positions(xs, q))
    decreases |xs|
  {
    if xs == [] {
      return;
    }
    var n := |xs| - 1;
    var init := xs[..n];
    PositionsExact(init, q);
    PositionsIncrease(init, q);
    var o := Positions(init, q);
    assert n !in o;
    forall i | 0 <= i < |xs| ensures q(xs[i]) <==> i in Positions(xs, q) {
      if i < n {
        assert init[i] == xs[i];
      }
    }
  }

  /** The positions of the releases that give items. */
  function Origins(rs: seq<Release>): seq<nat> {
    Positions(rs, Qualifies)
  }

  /** Item `k` is the item of release `Origins(rs)[k]`. */
  lemma {:induction false} ItemsAtOrigins(rs: seq<Release>, toRfc: string -> string)
    ensures |Items(rs, toRfc)| == |Origins(rs)|
    ensures forall k :: 0 <= k < |Origins(rs)| ==>
      Origins(rs)[k] < |rs| && DeriveItem(rs[Origins(rs)[k]], toRfc) == Some(Items(rs, toRfc)[k])
    decreases |rs|
  {
    if rs == [] {
      return;
    }
    var n := |rs| - 1;
    var init := rs[..n];
    ItemsAtOrigins(init, toRfc);
    assert forall i :: 0 <= i < n ==> init[i] == rs[i];
  }

  /**
   * Item `k` is derived from release `Origins(rs)[k]`; these positions
   * increase strictly (the order of the releases is kept) and are exactly the
   * releases with a matching asset (one item for each of them, none for the
   * others); so there are at most as many items as releases.
   */
  lemma ItemsFollowReleases(rs: seq<Release>, toRfc: string -> string)
    ensures |Items(rs, toRfc)| == |Origins(rs)| <= |rs|
    ensures forall k :: 0 <= k < |Origins(rs)| ==>
      Origins(rs)[k] < |rs| && DeriveItem(rs[Origins(rs)[k]], toRfc) == Some(Items(rs, toRfc)[k])
    ensures forall k, l :: 0 <= k < l < |Origins(rs)| ==> Origins(rs)[k] < Origins(rs)[l]
    ensures forall i :: 0 <= i < |rs| ==> (Qualifies(rs[i]) <==> i in Origins(rs))
  {
    PositionsIncrease(rs, Qualifies);
    PositionsExact(rs, Qualifies);
    ItemsAtOrigins(rs, toRfc);
  }

  /** Items of two consecutive stretches of releases are the items of each, in order. */
  lemma {:induction false} ItemsConcat(xs: seq<Release>, ys: seq<Release>, toRfc: string -> string)
    ensures Items(xs + ys, toRfc) == Items(xs, toRfc) + Items(ys, toRfc)
    decreases |ys|
  {
    if ys == [] {
      assert xs + ys == xs;
    } else {
      var n := |ys| - 1;
      assert (xs + ys)[..|xs + ys| - 1] == xs + ys[..n];
      ItemsConcat(xs, ys[..n], toRfc);
    }
  }

  /** The item loop of the source: skip releases without a preferred asset, append the rest. */
  method BuildItems(releases: seq<Release>, toRfc: string -> string) returns (items: seq<Item>)
    ensures items == Items(releases, toRfc)
  {
    items := [];
    for i := 0 to |releases|
      invariant items == Items(releases[..i], toRfc)
    {
      assert releases[..i + 1][..i] == releases[..i];
      var rel := releases[i];
      var tag := rel.tag;
      var title := Or(rel.name, tag);
      var notesUrl := rel.htmlUrl;
      var pub := Or(rel.publishedAt, rel.createdAt);
      var assets := AssetsOf(rel);
      var pick := SelectPreferred(assets);
      if pick.None? {
        continue;
      }
      var preferred := assets[pick.value];
      var downloadUrl := preferred.downloadUrl;
      var size := preferred.size.GetOr(0);
      var version := if Truthy(tag) then LStripV(tag.value) else "";
      var pubDate := if Truthy(pub) then toRfc(pub.value) else "";
      items := items + [Item(title, notesUrl, pubDate, downloadUrl, IntToDecimal(size), version)];
    }
    assert releases[..|releases|] == releases;
  }
}
