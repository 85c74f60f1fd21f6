/**
 * Choosing one asset per release (scripts/generate_appcast.py, lines 65-75).
 * Each asset's lower-cased name is tested against an ordered extension table;
 * the current choice is replaced only by an asset of strictly lower rank, so
 * the first asset of the best rank wins.
 */
module Selection {
  import opened Wrappers
  import opened Releases

  /** The extension table, in its iteration order, with each entry's rank. */
  const ExtPriority: seq<(string, nat)> := [(".zip", 0), (".dmg", 1), (".pkg", 2)]

  /** ASCII lower-casing of one character. */
  function LowerChar(c: char): char {
    if 'A' <= c <= 'Z' then (c as int + 32) as char else c
  }

  /** ASCII lower-casing of a string, character by character. */
  function Lower(s: string): (r: string)
    ensures |r| == |s|
    ensures forall i :: 0 <= i < |s| ==> r[i] == LowerChar(s[i])
  {
    if s == [] then [] else [LowerChar(s[0])] + Lower(s[1..])
  }

  predicate EndsWith(s: string, suffix: string) {
    |suffix| <= |s| && s[|s| - |suffix|..] == suffix
  }

  /** The name that is matched: the asset's name lower-cased, or empty when it has none. */
  function MatchName(a: Asset): string {
    Lower(a.name.GetOr(""))
  }

  /** The rank of the first table entry, from entry `k` on, that `name` ends with. */
  function RankFrom(name: string, k: nat): (p: Option<nat>)
    requires k <= |ExtPriority|
    ensures p.Some? ==> k <= p.value < |ExtPriority|
    decreases |ExtPriority| - k
  {
    if k == |ExtPriority| then None
    else if EndsWith(name, ExtPriority[k].0) then Some(ExtPriority[k].1)
    else RankFrom(name, k + 1)
  }

  /**
   * The scan finds nothing exactly when no entry from `k` on is a suffix of
   * the name, and what it finds is the rank of an entry that is.
   */
  lemma {:induction false} RankFromFinds(name: string, k: nat)
    requires k <= |ExtPriority|
    ensures RankFrom(name, k).None? <==> forall j :: k <= j < |ExtPriority| ==> !EndsWith(name, ExtPriority[j].0)
    ensures RankFrom(name, k).Some? ==> EndsWith(name, ExtPriority[RankFrom(name, k).value].0)
    decreases |ExtPriority| - k
  {
    if k < |ExtPriority| {
      RankFromFinds(name, k + 1);
    }
  }

  /** The rank of an asset, or None when its name has none of the extensions. */
  function Rank(a: Asset): Option<nat> {
    RankFrom(MatchName(a), 0)
  }

  /** The table ranks are the positions of their entries; no name has two extensions. */
  lemma RankMeansExtension(a: Asset)
    ensures Rank(a).None? <==> !EndsWith(MatchName(a), ".zip") && !EndsWith(MatchName(a), ".dmg") && !EndsWith(MatchName(a), ".pkg")
    ensures Rank(a) == Some(0) <==> EndsWith(MatchName(a), ".zip")
    ensures Rank(a) == Some(1) <==> EndsWith(MatchName(a), ".dmg")
    ensures Rank(a) == Some(2) <==> EndsWith(MatchName(a), ".pkg")
  {
    var n := MatchName(a);
    RankFromFinds(n, 0);
    if EndsWith(n, ".zip") {
      assert n[|n| - 1] == 'p';
      assert !EndsWith(n, ".dmg") && !EndsWith(n, ".pkg");
    } else if EndsWith(n, ".dmg") {
      assert n[|n| - 1] == 'g';
      assert !EndsWith(n, ".pkg") by { assert n[|n| - 2] == 'm'; }
    }
  }

  /** The rank of every asset, in list order. */
  function Ranks(assets: seq<Asset>): (ranks: seq<Option<nat>>)
    ensures |ranks| == |assets|
    ensures forall j :: 0 <= j < |assets| ==> ranks[j] == Rank(assets[j])
  {
    seq(|assets|, j requires 0 <= j < |assets| => Rank(assets[j]))
  }

  /**
   * The index the loop of the source ends with, given the ranks of the assets
   * in order (None for an asset with no known extension).
   */
  function Best(ranks: seq<Option<nat>>): (p: Option<nat>)
    ensures p.Some? ==> p.value < |ranks| && ranks[p.value].Some?
    decreases |ranks|
  {
    if |ranks| == 0 then None
    else
      var before := Best(ranks[..|ranks| - 1]);
      var last := |ranks| - 1;
      match ranks[last]
      case None => before
      case Some(prio) =>
        if before.None? || prio < ranks[before.value].value then Some(last) else before
  }

  /** One more step of the fold. */
  lemma BestExtend(ranks: seq<Option<nat>>, i: nat)
    requires i < |ranks|
    ensures var before := Best(ranks[..i]);
      Best(ranks[..i + 1]) ==
        match ranks[i]
        case None => before
        case Some(q) => if before.None? || q < ranks[before.value].value then Some(i) else before
  {
    assert ranks[..i + 1][..i] == ranks[..i];
  }

  /** The fold over ranks with one more entry at the end. */
  lemma BestSnoc(ranks: seq<Option<nat>>, x: Option<nat>)
    ensures var before := Best(ranks);
      Best(ranks + [x]) ==
        match x
        case None => before
        case Some(q) => if before.None? || q < ranks[before.value].value then Some(|ranks|) else before
  {
    var r := ranks + [x];
    BestExtend(r, |ranks|);
    assert r[..|ranks| + 1] == r && r[..|ranks|] == ranks;
  }

  /** No asset is ranked. */
  ghost predicate NoneRanked(ranks: seq<Option<nat>>) {
    forall j :: 0 <= j < |ranks| ==> ranks[j].None?
  }

  /**
   * Index `i` is ranked, its rank is the lowest of all ranked entries, and
   * every ranked entry before it has a strictly higher rank.
   */
  ghost predicate IsBest(ranks: seq<Option<nat>>, i: int) {
    && 0 <= i < |ranks|
    && ranks[i].Some?
    && (forall j :: 0 <= j < |ranks| && ranks[j].Some? ==> ranks[i].value <= ranks[j].value)
    && (forall j :: 0 <= j < i && ranks[j].Some? ==> ranks[i].value < ranks[j].value)
  }

  /** At most one index is `IsBest`. */
  lemma IsBestUnique(ranks: seq<Option<nat>>, i: int, k: int)
    requires IsBest(ranks, i) && IsBest(ranks, k)
    ensures i == k
  {
  }

  /** The fold finds nothing exactly when nothing is ranked, and what it finds is `IsBest`. */
  lemma {:induction false} BestSpec(ranks: seq<Option<nat>>)
    ensures Best(ranks).None? <==> NoneRanked(ranks)
    ensures Best(ranks).Some? ==> IsBest(ranks, Best(ranks).value)
    decreases |ranks|
  {
    if |ranks| == 0 {
      return;
    }
    var n := |ranks| - 1;
    var init := ranks[..n];
    BestSpec(init);
    BestExtend(ranks, n);
    assert ranks[..n + 1] == ranks;
    assert forall j :: 0 <= j < n ==> ranks[j] == init[j];
    var before := Best(init);
    if ranks[n].None? {
      if before.Some? {
        assert IsBest(init, before.value);
      } else {
        assert NoneRanked(init);
      }
    } else if before.None? {
      assert NoneRanked(init);
    } else {
      assert IsBest(init, before.value);
    }
  }

  /** The loop's result is exactly the index that `IsBest` describes, and None when nothing is ranked. */
  lemma BestIsFirstLowest(ranks: seq<Option<nat>>)
    ensures Best(ranks).None? <==> NoneRanked(ranks)
    ensures forall i :: IsBest(ranks, i) <==> Best(ranks) == Some(i)
  {
    BestSpec(ranks);
    forall i | IsBest(ranks, i) ensures Best(ranks) == Some(i) {
      IsBestUnique(ranks, i, Best(ranks).value);
    }
  }

  /** The position an index of `xs + ys` moves to when one entry is inserted after `xs`. */
  function Shift(p: Option<nat>, m: nat): Option<nat> {
    match p
    case None => None
    case Some(i) => if i < m then Some(i) else Some(i + 1)
  }

  /** An unranked entry never changes which entry is chosen, wherever it stands. */
  lemma {:induction false} UnrankedIgnored(xs: seq<Option<nat>>, ys: seq<Option<nat>>)
    ensures Best(xs + [None] + ys) == Shift(Best(xs + ys), |xs|)
    decreases |ys|
  {
    if ys == [] {
      BestSnoc(xs, None);
      assert xs + [None] + ys == xs + [None] && xs + ys == xs;
    } else {
      var n := |ys| - 1;
      var y := ys[n];
      var s, t := xs + ys[..n], xs + [None] + ys[..n];
      assert xs + ys == s + [y] && xs + [None] + ys == t + [y];
      UnrankedIgnored(xs, ys[..n]);
      BestSnoc(s, y);
      BestSnoc(t, y);
      if Best(s).Some? {
        var j := Best(s).value;
        assert t[Best(t).value] == s[j];
      }
    }
  }

  /** The chosen index of an asset list. */
  function Preferred(assets: seq<Asset>): (p: Option<nat>)
    ensures p.Some? ==> p.value < |assets| && Rank(assets[p.value]).Some?
  {
    Best(Ranks(assets))
  }

  /** The chosen asset itself. */
  function Selected(assets: seq<Asset>): Option<Asset> {
    match Preferred(assets)
    case None => None
    case Some(i) => Some(assets[i])
  }

  /** No asset's name has a known extension. */
  ghost predicate NoMatch(assets: seq<Asset>) {
    forall j :: 0 <= j < |assets| ==> Rank(assets[j]).None?
  }

  /** A ranked asset's name ends in one of the three extensions. */
  lemma RankedHasExtension(a: Asset)
    requires Rank(a).Some?
    ensures EndsWith(MatchName(a), ".zip") || EndsWith(MatchName(a), ".dmg") || EndsWith(MatchName(a), ".pkg")
  {
    RankMeansExtension(a);
  }

  /** `BestIsFirstLowest` read back on the assets' own ranks. */
  lemma PreferredRanks(assets: seq<Asset>)
    ensures Preferred(assets).None? <==> NoMatch(assets)
    ensures Preferred(assets).Some? ==>
      var i := Preferred(assets).value;
      && (forall j :: 0 <= j < |assets| && Rank(assets[j]).Some? ==> Rank(assets[i]).value <= Rank(assets[j]).value)
      && (forall j :: 0 <= j < i && Rank(assets[j]).Some? ==> Rank(assets[i]).value < Rank(assets[j]).value)
  {
    var ranks := Ranks(assets);
    BestIsFirstLowest(ranks);
    if Preferred(assets).None? {
      assert NoneRanked(ranks);
    } else {
      assert IsBest(ranks, Preferred(assets).value);
    }
  }

  /**
   * The chosen asset's name ends in `.zip`, `.dmg` or `.pkg`; its rank is
   * at most that of every matching asset; every matching asset before it has
   * a strictly higher rank (ties go to the first); and nothing is chosen
   * exactly when no asset matches.
   */
  lemma PreferredIsBest(assets: seq<Asset>)
    ensures Preferred(assets).None? <==> NoMatch(assets)
    ensures Preferred(assets).Some? ==>
      var i := Preferred(assets).value;
      var n := MatchName(assets[i]);
      && (EndsWith(n, ".zip") || EndsWith(n, ".dmg") || EndsWith(n, ".pkg"))
      && (forall j :: 0 <= j < |assets| && Rank(assets[j]).Some? ==> Rank(assets[i]).value <= Rank(assets[j]).value)
      && (forall j :: 0 <= j < i && Rank(assets[j]).Some? ==> Rank(assets[i]).value < Rank(assets[j]).value)
  {
    PreferredRanks(assets);
    if Preferred(assets).Some? {
      RankedHasExtension(assets[Preferred(assets).value]);
    }
  }

  lemma RanksAppend(xs: seq<Asset>, ys: seq<Asset>)
    ensures Ranks(xs + ys) == Ranks(xs) + Ranks(ys)
  {
    var l, r := Ranks(xs + ys), Ranks(xs) + Ranks(ys);
    forall j | 0 <= j < |l| ensures l[j] == r[j] {
      if j < |xs| {
        assert (xs + ys)[j] == xs[j];
      } else {
        assert (xs + ys)[j] == ys[j - |xs|];
      }
    }
  }

  /** An asset with no known extension never changes which asset is chosen, wherever it stands. */
  lemma NonMatchingIgnored(xs: seq<Asset>, a: Asset, ys: seq<Asset>)
    requires Rank(a).None?
    ensures Selected(xs + [a] + ys) == Selected(xs + ys)
  {
    var s, t := xs + ys, xs + [a] + ys;
    var rx, ry := Ranks(xs), Ranks(ys);
    RanksAppend(xs, ys);
    RanksAppend(xs, [a]);
    RanksAppend(xs + [a], ys);
    assert Ranks([a]) == [None];
    UnrankedIgnored(rx, ry);
    assert Preferred(t) == Shift(Preferred(s), |xs|);
    if Preferred(s).Some? {
      InsertKeepsElement(xs, a, ys, Preferred(s).value);
    }
  }

  lemma InsertKeepsElement<T>(xs: seq<T>, a: T, ys: seq<T>, i: nat)
    requires i < |xs| + |ys|
    ensures (xs + [a] + ys)[if i < |xs| then i else i + 1] == (xs + ys)[i]
  {
  }

  lemma {:induction false} LowerKeepsLowercase(s: string)
    requires forall i :: 0 <= i < |s| ==> !('A' <= s[i] <= 'Z')
    ensures Lower(s) == s
  {
    var l := Lower(s);
    forall i | 0 <= i < |s| ensures l[i] == s[i] {
    }
  }

  /** Lower-casing twice is lower-casing once. */
  lemma LowerIdempotent(s: string)
    ensures Lower(Lower(s)) == Lower(s)
  {
    var l := Lower(s);
    assert forall i :: 0 <= i < |l| ==> !('A' <= l[i] <= 'Z');
    LowerKeepsLowercase(l);
  }

  lemma BestOfTwo(a: nat, b: nat)
    ensures Best([Some(a), Some(b)]) == if b < a then Some(1) else Some(0)
  {
    assert [Some(a), Some(b)][..1] == [Some(a)];
    assert [Some(a)][..0] == [];
  }

  lemma RankOfName(name: string, lowered: string, url: Option<string>, ext: nat)
    requires Lower(name) == lowered && ext < |ExtPriority| && EndsWith(lowered, ExtPriority[ext].0)
    ensures Rank(Asset(Some(name), url, None)) == Some(ext)
  {
    RankMeansExtension(Asset(Some(name), url, None));
  }

  lemma LowerDmgExample()
    ensures Lower("App.dmg") == "app.dmg"
  {
    var l := Lower("App.dmg");
    forall i | 0 <= i < 7 ensures l[i] == "app.dmg"[i] {
    }
  }

  lemma LowerZipExample()
    ensures Lower("App.ZIP") == "app.zip"
  {
    var l := Lower("App.ZIP");
    forall i | 0 <= i < 7 ensures l[i] == "app.zip"[i] {
    }
  }

  /** Of two ranked assets the better-ranked one is selected, and the first on a tie. */
  lemma SelectedOfTwo(a: Asset, b: Asset, p: nat, q: nat)
    requires Rank(a) == Some(p) && Rank(b) == Some(q)
    ensures Selected([a, b]) == if q < p then Some(b) else Some(a)
  {
    assert Ranks([a, b]) == [Some(p), Some(q)];
    BestOfTwo(p, q);
  }

  /** A `.zip` asset beats a `.dmg` asset whichever comes first; upper case does not matter. */
  lemma ZipBeatsDmg(url1: Option<string>, url2: Option<string>)
    ensures var dmg, zip := Asset(Some("App.dmg"), url1, None), Asset(Some("App.ZIP"), url2, None);
      Selected([dmg, zip]) == Some(zip) && Selected([zip, dmg]) == Some(zip)
  {
    var dmg, zip := Asset(Some("App.dmg"), url1, None), Asset(Some("App.ZIP"), url2, None);
    LowerDmgExample();
    LowerZipExample();
    RankOfName("App.dmg", "app.dmg", url1, 1);
    RankOfName("App.ZIP", "app.zip", url2, 0);
    SelectedOfTwo(dmg, zip, 1, 0);
    SelectedOfTwo(zip, dmg, 0, 1);
  }

  /**
   * The selection loop of the source: the outer loop walks the assets, the
   * inner loop walks the extension table and stops at the first match.
   */
  method SelectPreferred(assets: seq<Asset>) returns (pick: Option<nat>)
    ensures pick == Preferred(assets)
    ensures pick.None? <==> NoMatch(assets)
    ensures pick.Some? ==> IsBest(Ranks(assets), pick.value)
  {
    ghost var ranks := Ranks(assets);
    pick := None;
    var prio: nat := 0;
    var i := 0;
    while i < |assets|
      invariant 0 <= i <= |assets|
      invariant pick == Best(ranks[..i])
      invariant pick.Some? ==> pick.value < i && ranks[pick.value] == Some(prio)
    {
      BestExtend(ranks, i);
      var name := Lower(assets[i].name.GetOr(""));
      var k := 0;
      while k < |ExtPriority|
        invariant 0 <= k <= |ExtPriority|
        invariant RankFrom(name, k) == ranks[i]
      {
        var (ext, p) := ExtPriority[k];
        if EndsWith(name, ext) {
          assert ranks[i] == Some(p);
          if pick.None? || p < prio {
            pick := Some(i);
            prio := p;
          }
          break;
        }
        k := k + 1;
      }
      i := i + 1;
    }
    assert ranks[..i] == ranks;
    BestIsFirstLowest(ranks);
    if pick.None? {
      assert NoneRanked(ranks);
    }
  }
}
