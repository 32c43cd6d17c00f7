/**
 * Message ids: the canonical text of a random UUID (8-4-4-4-12 lowercase hex digits joined
 * by hyphens) with every hyphen removed.
 */
module UuidText {

  predicate IsHexDigit(ch: char) {
    '0' <= ch <= '9' || 'a' <= ch <= 'f'
  }

  predicate IsHex(s: string) {
    forall i :: 0 <= i < |s| ==> IsHexDigit(s[i])
  }

  /** The canonical text form of a UUID. */
  predicate IsUuidText(u: string) {
    && |u| == 36
    && u[8] == '-' && u[13] == '-' && u[18] == '-' && u[23] == '-'
    && IsHex(u[..8]) && IsHex(u[9..13]) && IsHex(u[14..18]) && IsHex(u[19..23]) && IsHex(u[24..])
  }

  /** Replaces every "-" by nothing. */
  function StripHyphens(s: string): (r: string)
    ensures |r| <= |s|
    ensures forall i :: 0 <= i < |r| ==> r[i] != '-'
  {
    if s == [] then []
    else if s[0] == '-' then StripHyphens(s[1..])
    else [s[0]] + StripHyphens(s[1..])
  }

  /** Re-inserts the four hyphens of the canonical UUID text into 32 hex digits. */
  function Hyphenate(h: string): string
    requires |h| == 32
  {
    h[..8] + "-" + h[8..12] + "-" + h[12..16] + "-" + h[16..20] + "-" + h[20..]
  }

  lemma {:induction false} StripAppend(a: string, b: string)
    ensures StripHyphens(a + b) == StripHyphens(a) + StripHyphens(b)
  {
    if a != [] {
      assert (a + b)[1..] == a[1..] + b;
      StripAppend(a[1..], b);
    } else {
      assert a + b == b;
    }
  }

  lemma {:induction false} StripHex(h: string)
    requires IsHex(h)
    ensures StripHyphens(h) == h
  {
    if h != [] {
      assert IsHex(h[1..]) by {
        forall i | 0 <= i < |h[1..]| ensures IsHexDigit(h[1..][i]) {
          assert h[1..][i] == h[i + 1];
        }
      }
      StripHex(h[1..]);
    }
  }

  /** The five hex groups of a canonical UUID text with its hyphens. */
  lemma SplitUuid(u: string)
    requires IsUuidText(u)
    ensures u == u[..8] + "-" + u[9..13] + "-" + u[14..18] + "-" + u[19..23] + "-" + u[24..]
  {
  }

  /** Appending a hyphen and a hex group adds just the group to the stripped text. */
  lemma StripHyphenGroup(x: string, g: string)
    requires IsHex(g)
    ensures StripHyphens(x + "-" + g) == StripHyphens(x) + g
  {
    StripAppend(x + "-", g);
    StripAppend(x, "-");
    assert StripHyphens("-") == [];
    StripHex(g);
  }

  /** The hex groups of a canonical UUID text, concatenated. */
  function UuidDigits(u: string): string
    requires IsUuidText(u)
  {
    u[..8] + u[9..13] + u[14..18] + u[19..23] + u[24..]
  }

  /** Stripping a canonical UUID text leaves its five hex groups, concatenated. */
  lemma StripUuid(u: string)
    requires IsUuidText(u)
    ensures StripHyphens(u) == UuidDigits(u)
  {
    var a, b, c, d, e := u[..8], u[9..13], u[14..18], u[19..23], u[24..];
    SplitUuid(u);
    StripHex(a);
    StripHyphenGroup(a, b);
    var ab := a + "-" + b;
    StripHyphenGroup(ab, c);
    var abc := ab + "-" + c;
    StripHyphenGroup(abc, d);
    var abcd := abc + "-" + d;
    StripHyphenGroup(abcd, e);
    assert u == abcd + "-" + e;
  }

  /**
   * The id generated from a UUID is 32 lowercase hex digits, and putting the hyphens back
   * gives the UUID text again.
   */
  lemma UuidId(u: string)
    requires IsUuidText(u)
    ensures |StripHyphens(u)| == 32 && IsHex(StripHyphens(u))
    ensures Hyphenate(StripHyphens(u)) == u
  {
    StripUuid(u);
    var a, b, c, d, e := u[..8], u[9..13], u[14..18], u[19..23], u[24..];
    var h := a + b + c + d + e;
    assert IsHex(h) by {
      forall i | 0 <= i < |h| ensures IsHexDigit(h[i]) {
        if i < 8 { assert h[i] == a[i]; }
        else if i < 12 { assert h[i] == b[i - 8]; }
        else if i < 16 { assert h[i] == c[i - 12]; }
        else if i < 20 { assert h[i] == d[i - 16]; }
        else { assert h[i] == e[i - 20]; }
      }
    }
    assert h[..8] == a && h[8..12] == b && h[12..16] == c && h[16..20] == d && h[20..] == e;
    SplitUuid(u);
  }

  /** Every 32-digit hex id is the id of exactly the UUID text `Hyphenate` builds from it. */
  lemma HyphenateIsUuid(h: string)
    requires |h| == 32 && IsHex(h)
    ensures IsUuidText(Hyphenate(h)) && StripHyphens(Hyphenate(h)) == h
    ensures forall u :: IsUuidText(u) && StripHyphens(u) == h ==> u == Hyphenate(h)
  {
    var u := Hyphenate(h);
    var a, b, c, d, e := h[..8], h[8..12], h[12..16], h[16..20], h[20..];
    assert u[..8] == a && u[9..13] == b && u[14..18] == c && u[19..23] == d && u[24..] == e;
    forall g | g in [a, b, c, d, e] ensures IsHex(g) {
      forall i | 0 <= i < |g| ensures IsHexDigit(g[i]) {
        if g == a { assert g[i] == h[i]; }
        else if g == b { assert g[i] == h[8 + i]; }
        else if g == c { assert g[i] == h[12 + i]; }
        else if g == d { assert g[i] == h[16 + i]; }
        else { assert g[i] == h[20 + i]; }
      }
    }
    assert IsHex(a) && IsHex(b) && IsHex(c) && IsHex(d) && IsHex(e);
    StripUuid(u);
    assert a + b + c + d + e == h;
    forall v | IsUuidText(v) && StripHyphens(v) == h ensures v == u {
      UuidId(v);
    }
  }

  /** Distinct UUIDs give distinct ids. */
  lemma UuidIdInjective(u: string, v: string)
    requires IsUuidText(u) && IsUuidText(v)
    ensures StripHyphens(u) == StripHyphens(v) ==> u == v
  {
    UuidId(u);
    UuidId(v);
  }
}
