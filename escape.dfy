/** Title escaping for the generated HTML document (`escapeHtml`). */
module Escape {

  /** The four entities the escaper writes. */
  const AmpEntity: string := "&amp;"
  const LtEntity: string := "&lt;"
  const GtEntity: string := "&gt;"
  const QuotEntity: string := "&quot;"

  /** The characters that are escaped. */
  predicate IsSpecial(c: char) {
    c == '&' || c == '<' || c == '>' || c == '"'
  }

  /** Number of occurrences of `c` in `s`. */
  function Count(s: string, c: char): (n: nat)
    ensures n <= |s|
    ensures n == 0 <==> c !in s
  {
    if s == [] then 0 else (if s[0] == c then 1 else 0) + Count(s[1..], c)
  }

  /** `s.replace(/c/g, rep)` in JavaScript for a one-character pattern: each
      occurrence of `c`, scanning left to right, becomes `rep`; the inserted
      text is not scanned again. */
  function ReplaceAll(s: string, c: char, rep: string): (r: string)
    ensures c !in s ==> r == s
    ensures forall d :: d in r ==> d in rep || (d in s && d != c)
  {
    if s == [] then []
    else (if s[0] == c then rep else [s[0]]) + ReplaceAll(s[1..], c, rep)
  }

  /** `escapeHtml`: four global replacements, `&` first. */
  function EscapeHtml(s: string): (r: string)
    ensures '<' !in r && '>' !in r && '"' !in r
    ensures (forall i :: 0 <= i < |s| ==> !IsSpecial(s[i])) ==> r == s
  {
    EntitiesHoldNoMarkup();
    NoSpecialCharacters(s);
    ReplaceAll(ReplaceAll(ReplaceAll(ReplaceAll(s, '&', AmpEntity), '<', LtEntity), '>', GtEntity), '"', QuotEntity)
  }

  /** The entities written by the later passes contain none of the characters
      those passes (or later ones) replace. */
  lemma EntitiesHoldNoMarkup()
    ensures '<' !in LtEntity && '<' !in GtEntity && '<' !in QuotEntity
    ensures '>' !in GtEntity && '>' !in QuotEntity && '"' !in QuotEntity
  {
  }

  /** A text with no special character contains none of the four. */
  lemma NoSpecialCharacters(s: string)
    ensures (forall i :: 0 <= i < |s| ==> !IsSpecial(s[i])) ==> '&' !in s && '<' !in s && '>' !in s && '"' !in s
  {
  }

  /** The escape of a single character, as a one-pass escaper would write it. */
  function EscapeChar(c: char): (e: string)
    ensures |e| >= 1
    ensures IsSpecial(c) <==> e[0] == '&'
    ensures !IsSpecial(c) ==> e == [c]
  {
    match c
    case '&' => AmpEntity
    case '<' => LtEntity
    case '>' => GtEntity
    case '"' => QuotEntity
    case _ => [c]
  }

  /** Reference escaper: one left-to-right pass mapping each character to its
      escape. */
  function EscapeMap(s: string): (r: string)
    ensures |r| >= |s|
  {
    if s == [] then [] else EscapeChar(s[0]) + EscapeMap(s[1..])
  }

  /** `p` occurs in `r` starting at index `i`. */
  predicate HasAt(r: string, i: nat, p: string) {
    i + |p| <= |r| && r[i..i + |p|] == p
  }

  /** One of the four entities starts at index `i` of `r`. */
  predicate StartsEntity(r: string, i: nat) {
    HasAt(r, i, AmpEntity) || HasAt(r, i, LtEntity) || HasAt(r, i, GtEntity) || HasAt(r, i, QuotEntity)
  }

  /** Decoder for the four entities, left to right; any other character,
      including an `&` that starts no entity, is kept. */
  function Unescape(r: string): (s: string)
    ensures |s| <= |r|
    decreases |r|
  {
    if r == [] then []
    else if HasAt(r, 0, AmpEntity) then "&" + Unescape(r[|AmpEntity|..])
    else if HasAt(r, 0, LtEntity) then "<" + Unescape(r[|LtEntity|..])
    else if HasAt(r, 0, GtEntity) then ">" + Unescape(r[|GtEntity|..])
    else if HasAt(r, 0, QuotEntity) then "\"" + Unescape(r[|QuotEntity|..])
    else [r[0]] + Unescape(r[1..])
  }

  // ---------------------------------------------------------------------
  // The four passes behave as one per-character map

  /** A global replacement distributes over concatenation. */
  lemma {:induction false} ReplaceAllAppend(a: string, b: string, c: char, rep: string)
    ensures ReplaceAll(a + b, c, rep) == ReplaceAll(a, c, rep) + ReplaceAll(b, c, rep)
  {
    if a == [] {
      assert a + b == b;
    } else {
      assert (a + b)[0] == a[0];
      assert (a + b)[1..] == a[1..] + b;
      ReplaceAllAppend(a[1..], b, c, rep);
    }
  }

  /** Escaping a concatenation escapes each part independently: every input
      character is escaped once, in place, and the order is kept. */
  lemma EscapeHtmlAppend(a: string, b: string)
    ensures EscapeHtml(a + b) == EscapeHtml(a) + EscapeHtml(b)
  {
    var p1a, p1b := ReplaceAll(a, '&', AmpEntity), ReplaceAll(b, '&', AmpEntity);
    ReplaceAllAppend(a, b, '&', AmpEntity);
    var p2a, p2b := ReplaceAll(p1a, '<', LtEntity), ReplaceAll(p1b, '<', LtEntity);
    ReplaceAllAppend(p1a, p1b, '<', LtEntity);
    var p3a, p3b := ReplaceAll(p2a, '>', GtEntity), ReplaceAll(p2b, '>', GtEntity);
    ReplaceAllAppend(p2a, p2b, '>', GtEntity);
    ReplaceAllAppend(p3a, p3b, '"', QuotEntity);
  }

  /** A global replacement on a one-character string. */
  lemma ReplaceAllSingle(c: char, d: char, rep: string)
    ensures ReplaceAll([c], d, rep) == if c == d then rep else [c]
  {
    assert [c][1..] == [];
  }

  /** On one character the four passes give that character's escape: text
      inserted by an earlier pass is never rewritten by a later one. */
  lemma EscapeHtmlChar(c: char)
    ensures EscapeHtml([c]) == EscapeChar(c)
  {
    ReplaceAllSingle(c, '&', AmpEntity);
    if c == '&' {
      assert '<' !in AmpEntity && '>' !in AmpEntity && '"' !in AmpEntity;
    } else {
      ReplaceAllSingle(c, '<', LtEntity);
      if c == '<' {
        assert '>' !in LtEntity && '"' !in LtEntity;
      } else {
        ReplaceAllSingle(c, '>', GtEntity);
        if c == '>' {
          assert '"' !in GtEntity;
        } else {
          ReplaceAllSingle(c, '"', QuotEntity);
        }
      }
    }
  }

  /** The four-pass escaper equals the one-pass per-character map. */
  lemma {:induction false} EscapeHtmlIsOnePass(s: string)
    ensures EscapeHtml(s) == EscapeMap(s)
  {
    if s != [] {
      assert s == [s[0]] + s[1..];
      EscapeHtmlAppend([s[0]], s[1..]);
      EscapeHtmlChar(s[0]);
      EscapeHtmlIsOnePass(s[1..]);
    }
  }

  // ---------------------------------------------------------------------
  // What the escaped title looks like

  /** An entity found in the right part of a concatenation. */
  lemma StartsEntityShift(a: string, b: string, j: nat)
    requires StartsEntity(b, j)
    ensures StartsEntity(a + b, |a| + j)
  {
    forall p | p in [AmpEntity, LtEntity, GtEntity, QuotEntity] && HasAt(b, j, p)
      ensures HasAt(a + b, |a| + j, p)
    {
      assert (a + b)[|a| + j..|a| + j + |p|] == b[j..j + |p|];
    }
  }

  /** An occurrence found at the start of the left part of a concatenation. */
  lemma HasAtStart(a: string, b: string)
    ensures HasAt(a + b, 0, a)
  {
    assert (a + b)[..|a|] == a;
  }

  /** Within one character's escape, an `&` can only be the first character,
      and then the escape is one of the four entities. */
  lemma EscapeCharAmpersand(c: char, i: nat)
    requires i < |EscapeChar(c)| && EscapeChar(c)[i] == '&'
    ensures i == 0 && IsSpecial(c)
  {
    if !IsSpecial(c) {
    } else if c == '&' {
      assert EscapeChar(c) == AmpEntity;
    } else if c == '<' {
      assert EscapeChar(c) == LtEntity;
    } else if c == '>' {
      assert EscapeChar(c) == GtEntity;
    } else {
      assert EscapeChar(c) == QuotEntity;
    }
  }

  /** The escape of a special character starts an entity, whatever follows. */
  lemma EscapeCharStartsEntity(c: char, rest: string)
    requires IsSpecial(c)
    ensures StartsEntity(EscapeChar(c) + rest, 0)
  {
    HasAtStart(EscapeChar(c), rest);
  }

  /** One induction step: an `&` in a character's escape followed by text
      whose every `&` starts an entity. */
  lemma AmpersandAfterEscape(c: char, rest: string, i: nat)
    requires forall j :: 0 <= j < |rest| && rest[j] == '&' ==> StartsEntity(rest, j)
    requires i < |EscapeChar(c) + rest| && (EscapeChar(c) + rest)[i] == '&'
    ensures StartsEntity(EscapeChar(c) + rest, i)
  {
    var e := EscapeChar(c);
    if i < |e| {
      EscapeCharAmpersand(c, i);
      EscapeCharStartsEntity(c, rest);
    } else {
      assert rest[i - |e|] == '&';
      StartsEntityShift(e, rest, i - |e|);
    }
  }

  lemma {:induction false} EscapeMapAmpersands(s: string)
    ensures forall i :: 0 <= i < |EscapeMap(s)| && EscapeMap(s)[i] == '&' ==> StartsEntity(EscapeMap(s), i)
  {
    if s != [] {
      var e, rest := EscapeChar(s[0]), EscapeMap(s[1..]);
      var r := EscapeMap(s);
      assert r == e + rest;
      EscapeMapAmpersands(s[1..]);
      forall i | 0 <= i < |r| && r[i] == '&'
        ensures StartsEntity(r, i)
      {
        AmpersandAfterEscape(s[0], rest, i);
      }
    }
  }

  /** No bare ampersand survives: every `&` of the output begins one of the
      four entities. */
  lemma EscapeHtmlAmpersands(s: string)
    ensures forall i :: 0 <= i < |EscapeHtml(s)| && EscapeHtml(s)[i] == '&' ==> StartsEntity(EscapeHtml(s), i)
  {
    EscapeHtmlIsOnePass(s);
    EscapeMapAmpersands(s);
  }

  lemma {:induction false} EscapeMapLength(s: string)
    ensures |EscapeMap(s)| == |s| + 4 * Count(s, '&') + 3 * Count(s, '<') + 3 * Count(s, '>') + 5 * Count(s, '"')
  {
    if s != [] {
      EscapeMapLength(s[1..]);
    }
  }

  /** Each `&` grows the text by four characters, each `<` and `>` by three,
      each `"` by five; nothing else changes length. */
  lemma EscapeHtmlLength(s: string)
    ensures |EscapeHtml(s)| == |s| + 4 * Count(s, '&') + 3 * Count(s, '<') + 3 * Count(s, '>') + 5 * Count(s, '"')
    ensures |EscapeHtml(s)| >= |s|
  {
    EscapeHtmlIsOnePass(s);
    EscapeMapLength(s);
  }

  // ---------------------------------------------------------------------
  // Injectivity

  /** A text whose `k`-th character differs from `p`'s does not start with `p`. */
  lemma NotHasAt(r: string, p: string, k: nat)
    requires k < |p| && k < |r| && r[k] != p[k]
    ensures !HasAt(r, 0, p)
  {
  }

  /** Decoding a text that starts with an entity. */
  lemma UnescapeEntity(e: string, c: char, t: string)
    requires (e, c) in [(AmpEntity, '&'), (LtEntity, '<'), (GtEntity, '>'), (QuotEntity, '"')]
    ensures Unescape(e + t) == [c] + Unescape(t)
  {
    var r := e + t;
    HasAtStart(e, t);
    assert r[|e|..] == t;
    assert r[1] == e[1];
    if e != AmpEntity {
      NotHasAt(r, AmpEntity, 1);
    }
    if e == GtEntity || e == QuotEntity {
      NotHasAt(r, LtEntity, 1);
    }
    if e == QuotEntity {
      NotHasAt(r, GtEntity, 1);
    }
  }

  /** Decoding a text that starts with a character other than `&`. */
  lemma UnescapePlain(c: char, t: string)
    requires c != '&'
    ensures Unescape([c] + t) == [c] + Unescape(t)
  {
    var r := [c] + t;
    NotHasAt(r, AmpEntity, 0);
    NotHasAt(r, LtEntity, 0);
    NotHasAt(r, GtEntity, 0);
    NotHasAt(r, QuotEntity, 0);
    assert r[1..] == t;
  }

  /** Decoding consumes exactly one character's escape. */
  lemma UnescapeEscapeChar(c: char, t: string)
    ensures Unescape(EscapeChar(c) + t) == [c] + Unescape(t)
  {
    match c
    case '&' => UnescapeEntity(AmpEntity, '&', t);
    case '<' => UnescapeEntity(LtEntity, '<', t);
    case '>' => UnescapeEntity(GtEntity, '>', t);
    case '"' => UnescapeEntity(QuotEntity, '"', t);
    case _ => UnescapePlain(c, t);
  }

  lemma {:induction false} UnescapeEscapeMap(s: string)
    ensures Unescape(EscapeMap(s)) == s
  {
    if s != [] {
      UnescapeEscapeChar(s[0], EscapeMap(s[1..]));
      UnescapeEscapeMap(s[1..]);
      assert [s[0]] + s[1..] == s;
    }
  }

  /** Decoding the four entities of the escaped text gives back the original. */
  lemma EscapeHtmlRoundTrip(s: string)
    ensures Unescape(EscapeHtml(s)) == s
  {
    EscapeHtmlIsOnePass(s);
    UnescapeEscapeMap(s);
  }

  /** Two different titles never escape to the same text. */
  lemma EscapeHtmlInjective(a: string, b: string)
    ensures EscapeHtml(a) == EscapeHtml(b) ==> a == b
  {
    EscapeHtmlRoundTrip(a);
    EscapeHtmlRoundTrip(b);
  }

  /** Why `&` goes first: with the `&` pass run after the pass for `c`, the
      `&` of the entity just written for `c` would be rewritten, and `c`
      would come out escaped twice instead of as its entity. */
  lemma AmpersandLastWouldDoubleEscape(c: char)
    requires c == '<' || c == '>' || c == '"'
    ensures ReplaceAll(ReplaceAll([c], c, EscapeChar(c)), '&', AmpEntity) == AmpEntity + EscapeChar(c)[1..]
    ensures ReplaceAll(ReplaceAll([c], c, EscapeChar(c)), '&', AmpEntity) != EscapeHtml([c])
  {
    var e := EscapeChar(c);
    var tail := e[1..];
    ReplaceAllSingle(c, c, e);
    EntityShape(c);
    ReplaceAllAppend(['&'], tail, '&', AmpEntity);
    ReplaceAllSingle('&', '&', AmpEntity);
    EscapeHtmlChar(c);
  }

  /** The entity for `<`, `>` or `"` is an `&` followed by text without one. */
  lemma EntityShape(c: char)
    requires c == '<' || c == '>' || c == '"'
    ensures var e := EscapeChar(c); |e| > 1 && e == ['&'] + e[1..] && '&' !in e[1..]
  {
    var e := EscapeChar(c);
    assert e == ['&'] + e[1..];
  }

  /** An `&` followed by text with nothing to escape. */
  lemma EscapeAfterAmpersand(tail: string)
    requires forall i :: 0 <= i < |tail| ==> !IsSpecial(tail[i])
    ensures EscapeHtml(['&'] + tail) == AmpEntity + tail
  {
    EscapeHtmlAppend(['&'], tail);
    EscapeHtmlChar('&');
  }

  /** An entity already present in the title is escaped once: its `&`
      becomes `&amp;` and the rest is kept, so it shows literally rather than
      as the character it names. */
  lemma EntityInTitleShownLiterally(e: string)
    requires e in [AmpEntity, LtEntity, GtEntity, QuotEntity]
    ensures EscapeHtml(e) == AmpEntity + e[1..]
  {
    var tail := e[1..];
    assert e == ['&'] + tail;
    EscapeAfterAmpersand(tail);
  }
}
