/**
 * The text escaping of the serializer: `xml.sax.saxutils.escape`, which
 * replaces `&`, `<` and `>` by their entity references and leaves every other
 * character, quotes included, as it is.
 */
module Escaping {

  /** The escaped form of one character. */
  function EscapeChar(c: char): string {
    if c == '&' then "&amp;"
    else if c == '<' then "&lt;"
    else if c == '>' then "&gt;"
    else [c]
  }

  /** Escaping, character by character. */
  function Escape(s: string): string {
    if s == [] then [] else EscapeChar(s[0]) + Escape(s[1..])
  }

  /** `s.replace(c, rep)` for a one-character pattern. */
  function ReplaceChar(s: string, c: char, rep: string): string {
    if s == [] then [] else (if s[0] == c then rep else [s[0]]) + ReplaceChar(s[1..], c, rep)
  }

  /** Escaping as the library writes it: three replacements, `&` first. */
  function SaxEscape(s: string): string {
    ReplaceChar(ReplaceChar(ReplaceChar(s, '&', "&amp;"), '>', "&gt;"), '<', "&lt;")
  }

  lemma {:induction false} ReplaceCharAppend(a: string, b: string, c: char, rep: string)
    ensures ReplaceChar(a + b, c, rep) == ReplaceChar(a, c, rep) + ReplaceChar(b, c, rep)
    decreases |a|
  {
    if a == [] {
      assert a + b == b;
    } else {
      assert (a + b)[1..] == a[1..] + b;
      ReplaceCharAppend(a[1..], b, c, rep);
    }
  }

  lemma {:induction false} ReplaceCharAbsent(s: string, c: char, rep: string)
    requires c !in s
    ensures ReplaceChar(s, c, rep) == s
    decreases |s|
  {
    if s != [] {
      ReplaceCharAbsent(s[1..], c, rep);
    }
  }

  lemma ReplaceCharSingle(c: char, d: char, rep: string)
    ensures ReplaceChar([c], d, rep) == if c == d then rep else [c]
  {
    assert [c][1..] == [];
    var h := if c == d then rep else [c];
    assert h + [] == h;
  }

  lemma SaxEscapeChar(c: char)
    ensures SaxEscape([c]) == EscapeChar(c)
  {
    var r1 := ReplaceChar([c], '&', "&amp;");
    ReplaceCharSingle(c, '&', "&amp;");
    if c == '&' {
      ReplaceCharAbsent(r1, '>', "&gt;");
      ReplaceCharAbsent(r1, '<', "&lt;");
    } else {
      var r2 := ReplaceChar(r1, '>', "&gt;");
      ReplaceCharSingle(c, '>', "&gt;");
      if c == '>' {
        ReplaceCharAbsent(r2, '<', "&lt;");
      } else {
        ReplaceCharSingle(c, '<', "&lt;");
      }
    }
  }

  lemma SaxEscapeAppend(a: string, b: string)
    ensures SaxEscape(a + b) == SaxEscape(a) + SaxEscape(b)
  {
    var a1, b1 := ReplaceChar(a, '&', "&amp;"), ReplaceChar(b, '&', "&amp;");
    ReplaceCharAppend(a, b, '&', "&amp;");
    var a2, b2 := ReplaceChar(a1, '>', "&gt;"), ReplaceChar(b1, '>', "&gt;");
    ReplaceCharAppend(a1, b1, '>', "&gt;");
    ReplaceCharAppend(a2, b2, '<', "&lt;");
  }

  /** The per-character definition agrees with the library's three replacements. */
  lemma {:induction false} EscapeIsSaxEscape(s: string)
    ensures Escape(s) == SaxEscape(s)
    decreases |s|
  {
    if s != [] {
      assert s == [s[0]] + s[1..];
      EscapeIsSaxEscape(s[1..]);
      SaxEscapeAppend([s[0]], s[1..]);
      SaxEscapeChar(s[0]);
    }
  }

  predicate StartsAt(s: string, i: nat, p: string) {
    i + |p| <= |s| && s[i..i + |p|] == p
  }

  /** Position `i` starts one of the three entity references escaping produces. */
  predicate EntityAt(s: string, i: nat) {
    StartsAt(s, i, "&amp;") || StartsAt(s, i, "&lt;") || StartsAt(s, i, "&gt;")
  }

  lemma StartsAtAppend(h: string, t: string, j: nat, p: string)
    ensures StartsAt(t, j, p) ==> StartsAt(h + t, |h| + j, p)
    ensures StartsAt(h, j, p) ==> StartsAt(h + t, j, p)
  {
    if StartsAt(t, j, p) {
      assert (h + t)[|h| + j..|h| + j + |p|] == t[j..j + |p|];
    }
    if StartsAt(h, j, p) {
      assert (h + t)[j..j + |p|] == h[j..j + |p|];
    }
  }

  lemma EntityAtAppend(h: string, t: string, j: nat)
    ensures EntityAt(t, j) ==> EntityAt(h + t, |h| + j)
    ensures EntityAt(h, j) ==> EntityAt(h + t, j)
  {
    StartsAtAppend(h, t, j, "&amp;");
    StartsAtAppend(h, t, j, "&lt;");
    StartsAtAppend(h, t, j, "&gt;");
  }

  /** No `<` or `>`, and each `&` starts an entity reference. */
  predicate WellEscaped(e: string) {
    && '<' !in e && '>' !in e
    && forall i :: 0 <= i < |e| && e[i] == '&' ==> EntityAt(e, i)
  }

  lemma WellEscapedAppend(h: string, t: string)
    requires WellEscaped(h) && WellEscaped(t)
    ensures WellEscaped(h + t)
  {
    var e := h + t;
    forall i | 0 <= i < |e| && e[i] == '&' ensures EntityAt(e, i) {
      if i < |h| {
        assert h[i] == '&';
        EntityAtAppend(h, t, i);
      } else {
        assert t[i - |h|] == '&';
        EntityAtAppend(h, t, i - |h|);
      }
    }
  }

  lemma EscapeCharWellFormed(c: char)
    ensures WellEscaped(EscapeChar(c))
  {
    var h := EscapeChar(c);
    if c == '&' {
      assert h[1..5] == "amp;";
      assert h[..5] == "&amp;";
      assert StartsAt(h, 0, "&amp;");
    } else if c == '<' {
      assert h[..4] == "&lt;";
      assert StartsAt(h, 0, "&lt;");
    } else if c == '>' {
      assert h[..4] == "&gt;";
      assert StartsAt(h, 0, "&gt;");
    }
  }

  /** Escaped text has no `<` or `>`, and each `&` in it starts an entity reference. */
  lemma {:induction false} EscapeWellFormed(s: string)
    ensures '<' !in Escape(s) && '>' !in Escape(s)
    ensures forall i :: 0 <= i < |Escape(s)| && Escape(s)[i] == '&' ==> EntityAt(Escape(s), i)
    decreases |s|
  {
    if s != [] {
      EscapeWellFormed(s[1..]);
      EscapeCharWellFormed(s[0]);
      assert Escape(s) == EscapeChar(s[0]) + Escape(s[1..]);
      WellEscapedAppend(EscapeChar(s[0]), Escape(s[1..]));
    }
  }

  /**
   * The first character of non-empty text once decoded, and how many
   * characters of the text it takes up.
   */
  function DecodeFirst(s: string): (d: (char, nat))
    requires s != []
    ensures 1 <= d.1 <= |s|
  {
    if StartsAt(s, 0, "&amp;") then ('&', 5)
    else if StartsAt(s, 0, "&lt;") then ('<', 4)
    else if StartsAt(s, 0, "&gt;") then ('>', 4)
    else (s[0], 1)
  }

  /** Decoding of the three entity references, as an XML reader does for this text. */
  function Unescape(s: string): string
    decreases |s|
  {
    if s == [] then [] else var d := DecodeFirst(s); [d.0] + Unescape(s[d.1..])
  }

  /** Decoding the escaped form of one character gives back that character. */
  lemma DecodeEscapeChar(c: char, rest: string)
    ensures DecodeFirst(EscapeChar(c) + rest) == (c, |EscapeChar(c)|)
  {
    var w := EscapeChar(c) + rest;
    if c == '&' {
      assert w[..5] == "&amp;";
    } else if c == '<' {
      assert w[..4] == "&lt;";
      assert w[1] == 'l';
    } else if c == '>' {
      assert w[..4] == "&gt;";
      assert w[1] == 'g';
    } else {
      assert w[0] == c;
    }
  }

  lemma UnescapeEscapeChar(c: char, rest: string)
    ensures Unescape(EscapeChar(c) + rest) == [c] + Unescape(rest)
  {
    var w := EscapeChar(c) + rest;
    DecodeEscapeChar(c, rest);
    assert w[|EscapeChar(c)|..] == rest;
  }

  lemma EscapeConsAppend(s: string, t: string)
    requires s != []
    ensures Escape(s) + t == EscapeChar(s[0]) + (Escape(s[1..]) + t)
  {
  }

  lemma UnescapeEscapeStep(s: string, t: string, u: string)
    requires s != []
    requires Unescape(Escape(s[1..]) + t) == s[1..] + u
    ensures Unescape(Escape(s) + t) == s + u
  {
    var c, e := s[0], Escape(s[1..]) + t;
    EscapeConsAppend(s, t);
    UnescapeEscapeChar(c, e);
    ConsAppend(s, u);
  }

  lemma ConsAppend<T>(s: seq<T>, u: seq<T>)
    requires s != []
    ensures s + u == [s[0]] + (s[1..] + u)
  {
  }

  lemma {:induction false} UnescapeEscapeAppend(s: string, t: string)
    ensures Unescape(Escape(s) + t) == s + Unescape(t)
    decreases |s|
  {
    if s == [] {
      assert Escape(s) + t == t;
    } else {
      UnescapeEscapeAppend(s[1..], t);
      UnescapeEscapeStep(s, t, Unescape(t));
    }
  }

  /** Unescaping recovers the original text. */
  lemma EscapeRoundTrip(s: string)
    ensures Unescape(Escape(s)) == s
  {
    UnescapeEscapeAppend(s, []);
    assert Escape(s) + [] == Escape(s);
  }

  lemma DecodePlain(t: string)
    requires t != [] && t[0] != '&'
    ensures DecodeFirst(t) == (t[0], 1)
  {
  }

  /** Text without `&` reads back as itself. */
  lemma {:induction false} UnescapePlain(t: string)
    requires '&' !in t
    ensures Unescape(t) == t
    decreases |t|
  {
    if t != [] {
      DecodePlain(t);
      UnescapePlain(t[1..]);
    }
  }

  /** Text without `&`, `<` and `>` is left as it is by escaping. */
  lemma {:induction false} EscapePlain(s: string)
    requires '&' !in s && '<' !in s && '>' !in s
    ensures Escape(s) == s
    decreases |s|
  {
    if s != [] {
      EscapePlain(s[1..]);
      assert s == [s[0]] + s[1..];
    }
  }

  /** Escaped text followed by text without `&` reads back as the original followed by that text. */
  lemma UnescapeEscapedThenPlain(s: string, t: string)
    requires '&' !in t
    ensures Unescape(Escape(s) + t) == s + t
  {
    UnescapeEscapeAppend(s, t);
    UnescapePlain(t);
  }

  /** The number of occurrences of `c` in `s`. */
  function Count(s: string, c: char): nat {
    if s == [] then 0 else (if s[0] == c then 1 else 0) + Count(s[1..], c)
  }

  lemma {:induction false} CountAppend(a: string, b: string, c: char)
    ensures Count(a + b, c) == Count(a, c) + Count(b, c)
    decreases |a|
  {
    if a == [] {
      assert a + b == b;
    } else {
      assert (a + b)[1..] == a[1..] + b;
      CountAppend(a[1..], b, c);
    }
  }

  lemma {:induction false} CountAbsent(s: string, c: char)
    requires c !in s
    ensures Count(s, c) == 0
    decreases |s|
  {
    if s != [] {
      CountAbsent(s[1..], c);
    }
  }

  /** Escaping a quote, or any other character that is not a quote, keeps the number of quotes. */
  lemma CountEscapeChar(c: char, q: char)
    requires q == '"' || q == '\''
    ensures Count(EscapeChar(c), q) == Count([c], q)
  {
    assert [c][1..] == [];
    if c == '&' || c == '<' || c == '>' {
      CountAbsent(EscapeChar(c), q);
    }
  }

  /** Escaping never adds, removes or replaces a double or single quote. */
  lemma {:induction false} EscapeKeepsQuotes(s: string, q: char)
    requires q == '"' || q == '\''
    ensures Count(Escape(s), q) == Count(s, q)
    decreases |s|
  {
    if s != [] {
      EscapeKeepsQuotes(s[1..], q);
      CountEscapeChar(s[0], q);
      CountAppend(EscapeChar(s[0]), Escape(s[1..]), q);
      assert s == [s[0]] + s[1..];
      CountAppend([s[0]], s[1..], q);
    }
  }
}
