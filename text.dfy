/** The small part of Python's string toolkit that the track classifiers use:
    substring tests (`w in s`), `str.lower`, `str.strip`, `str.replace`, and the
    accent stripping built on `unicodedata`. */
module Text {

  // ---------------------------------------------------------------------------
  // Substring tests
  // ---------------------------------------------------------------------------

  /** `s.startswith(w)` */
  predicate HasPrefix(s: string, w: string) {
    |w| <= |s| && s[..|w|] == w
  }

  /** `w in s`: some suffix of `s` starts with `w`. */
  predicate Contains(s: string, w: string)
    decreases |s|
  {
    HasPrefix(s, w) || (|s| > 0 && Contains(s[1..], w))
  }

  /** `w` occurs in `s` at index `i`. */
  predicate OccursAt(s: string, w: string, i: int) {
    0 <= i && i + |w| <= |s| && s[i..i + |w|] == w
  }

  /** An occurrence at a known index makes the substring test true. */
  lemma {:induction false} OccursContains(s: string, w: string, i: int)
    requires OccursAt(s, w, i)
    ensures Contains(s, w)
    decreases i
  {
    if i > 0 {
      assert s[1..][i - 1..i - 1 + |w|] == s[i..i + |w|];
      OccursContains(s[1..], w, i - 1);
    }
  }

  /** The substring test is true only at an index where the word occurs. */
  lemma {:induction false} ContainsOccurs(s: string, w: string) returns (i: int)
    requires Contains(s, w)
    ensures OccursAt(s, w, i)
    decreases |s|
  {
    if HasPrefix(s, w) {
      i := 0;
    } else {
      var j := ContainsOccurs(s[1..], w);
      assert s[j + 1..j + 1 + |w|] == s[1..][j..j + |w|];
      i := j + 1;
    }
  }

  /** A word holding a letter that `s` lacks does not occur in `s`. */
  lemma MissingLetter(s: string, w: string, k: int)
    requires 0 <= k < |w| && Avoids(s, w[k])
    ensures !Contains(s, w)
  {
    if Contains(s, w) {
      var i := ContainsOccurs(s, w);
    }
  }

  /** `a` and `b` differ at some index that both of them have. */
  predicate Disagree(a: string, b: string)
    decreases |a|
  {
    |a| > 0 && |b| > 0 && (a[0] != b[0] || Disagree(a[1..], b[1..]))
  }

  /** No occurrence of `w` can start inside `x`, whatever follows `x`. */
  predicate NoOverlap(x: string, w: string)
    decreases |x|
  {
    |x| == 0 || (Disagree(x, w) && NoOverlap(x[1..], w))
  }

  lemma {:induction false} DisagreeNoPrefix(x: string, y: string, w: string)
    requires Disagree(x, w)
    ensures !HasPrefix(x + y, w)
    decreases |x|
  {
    if x[0] == w[0] {
      DisagreeNoPrefix(x[1..], y, w[1..]);
      assert (x + y)[1..] == x[1..] + y;
    }
  }

  /** A prefix in which no occurrence of `w` can start does not change whether
      `w` occurs. */
  lemma {:induction false} SkipNoOverlap(x: string, y: string, w: string)
    requires NoOverlap(x, w)
    ensures Contains(x + y, w) <==> Contains(y, w)
    decreases |x|
  {
    if |x| > 0 {
      DisagreeNoPrefix(x, y, w);
      assert (x + y)[1..] == x[1..] + y;
      SkipNoOverlap(x[1..], y, w);
    } else {
      assert x + y == y;
    }
  }

  /** `w` holds no whitespace. */
  predicate NoSpace(w: string) {
    forall k :: 0 <= k < |w| ==> !IsSpace(w[k])
  }

  /** `w` never holds the character `c`. */
  predicate Avoids(w: string, c: char) {
    forall k :: 0 <= k < |w| ==> w[k] != c
  }

  // ---------------------------------------------------------------------------
  // str.lower
  // ---------------------------------------------------------------------------

  /** Lower-case mapping of one character: ASCII and the Latin-1 and Latin
      Extended-A capitals a French label can hold. */
  function LowerChar(c: char): (r: char)
    ensures ('A' <= c <= 'Z') ==> r as int == c as int + 32
    ensures !('A' <= c <= 'Z') && c < 128 as char ==> r == c
  {
    if 'A' <= c <= 'Z' then (c as int + 32) as char
    else if '\U{C0}' <= c <= '\U{DE}' && c != '\U{D7}' then (c as int + 32) as char
    else if c == '\U{152}' then '\U{153}'   // Œ -> œ
    else if c == '\U{178}' then '\U{FF}'    // Ÿ -> ÿ
    else c
  }

  /** `s.lower()` */
  function Lower(s: string): (r: string)
    ensures |r| == |s|
    ensures forall i :: 0 <= i < |s| ==> r[i] == LowerChar(s[i])
  {
    seq(|s|, i requires 0 <= i < |s| => LowerChar(s[i]))
  }

  /** `s.lower() == w`, decided one character at a time. */
  predicate LowerEquals(s: string, w: string) {
    |s| == |w| && (|s| == 0 || (LowerChar(s[0]) == w[0] && LowerEquals(s[1..], w[1..])))
  }

  lemma {:induction false} LowerEqualsIff(s: string, w: string)
    ensures LowerEquals(s, w) <==> Lower(s) == w
  {
    if |s| > 0 && |s| == |w| {
      LowerEqualsIff(s[1..], w[1..]);
      assert Lower(s) == [LowerChar(s[0])] + Lower(s[1..]);
      assert w == [w[0]] + w[1..];
    }
  }

  lemma LowerAppend(a: string, b: string)
    ensures Lower(a + b) == Lower(a) + Lower(b)
  {
  }

  /** Text with no capital letter is its own lower-case form. */
  lemma LowerFixed(s: string)
    requires forall k :: 0 <= k < |s| ==> s[k] < '\U{80}' && !('A' <= s[k] <= 'Z')
    ensures Lower(s) == s
  {
  }

  // ---------------------------------------------------------------------------
  // str.strip
  // ---------------------------------------------------------------------------

  /** `c.isspace()` in Python 3: the characters of bidirectional class WS, B or S
      and of category Zs. No ASCII letter or digit is whitespace. */
  predicate IsSpace(c: char)
    ensures IsSpace(c) ==> !('0' <= c <= '9') && !('A' <= c <= 'Z') && !('a' <= c <= 'z')
  {
    ('\t' <= c <= '\r') || ('\U{1C}' <= c <= ' ') || c == '\U{85}' || c == '\U{A0}'
    || c == '\U{1680}' || ('\U{2000}' <= c <= '\U{200A}') || c == '\U{2028}'
    || c == '\U{2029}' || c == '\U{202F}' || c == '\U{205F}' || c == '\U{3000}'
  }

  /** `s.lstrip()`: drops the leading whitespace. */
  function StripLeft(s: string): (r: string)
    ensures |r| <= |s| && r == s[|s| - |r|..]
    ensures forall k :: 0 <= k < |s| - |r| ==> IsSpace(s[k])
    ensures r != [] ==> !IsSpace(r[0])
    decreases |s|
  {
    if |s| > 0 && IsSpace(s[0]) then StripLeft(s[1..]) else s
  }

  /** `s.rstrip()`: drops the trailing whitespace. */
  function StripRight(s: string): (r: string)
    ensures |r| <= |s| && r == s[..|r|]
    ensures forall k :: |r| <= k < |s| ==> IsSpace(s[k])
    ensures r != [] ==> !IsSpace(r[|r| - 1])
    decreases |s|
  {
    if |s| > 0 && IsSpace(s[|s| - 1]) then StripRight(s[..|s| - 1]) else s
  }

  /** `s.strip()`: neither end of the result is whitespace; text without
      whitespace is kept whole, and text made only of whitespace becomes empty. */
  function Strip(s: string): (r: string)
    ensures |r| <= |s|
    ensures r != [] ==> !IsSpace(r[0]) && !IsSpace(r[|r| - 1])
    ensures (forall k :: 0 <= k < |s| ==> !IsSpace(s[k])) ==> r == s
    ensures (forall k :: 0 <= k < |s| ==> IsSpace(s[k])) ==> r == []
  {
    var l := StripLeft(s);
    assert l != [] ==> l[0] == s[|s| - |l|];
    StripRight(l)
  }

  /** Cutting whitespace off both ends of `s` keeps every occurrence of a word
      that holds no whitespace, and creates none. */
  lemma CropKeepsWord(s: string, t: string, a: nat, w: string)
    requires a + |t| <= |s| && t == s[a..a + |t|]
    requires forall k :: 0 <= k < a ==> IsSpace(s[k])
    requires forall k :: a + |t| <= k < |s| ==> IsSpace(s[k])
    requires |w| > 0 && NoSpace(w)
    ensures Contains(t, w) <==> Contains(s, w)
  {
    if Contains(s, w) {
      var i := ContainsOccurs(s, w);
      OccurrenceInside(s, a, a + |t|, w, i);
      SliceKeepsOccurrence(s, t, a, w, i);
    }
    if Contains(t, w) {
      var i := ContainsOccurs(t, w);
      OccurrenceWidens(s, t, a, w, i);
    }
  }

  /** An occurrence in a part `t` of `s` is an occurrence in `s`. */
  lemma OccurrenceWidens(s: string, t: string, a: nat, w: string, i: int)
    requires a + |t| <= |s| && t == s[a..a + |t|] && OccursAt(t, w, i)
    ensures Contains(s, w)
  {
    forall k | 0 <= k < |w| ensures s[a + i..a + i + |w|][k] == w[k] {
      assert s[a + i + k] == t[i + k] == t[i..i + |w|][k];
    }
    OccursContains(s, w, a + i);
  }

  /** An occurrence of a word without whitespace lies between the leading and
      the trailing whitespace. */
  lemma OccurrenceInside(s: string, a: nat, b: nat, w: string, i: int)
    requires a <= b <= |s|
    requires forall k :: 0 <= k < a ==> IsSpace(s[k])
    requires forall k :: b <= k < |s| ==> IsSpace(s[k])
    requires |w| > 0 && NoSpace(w)
    requires OccursAt(s, w, i)
    ensures a <= i && i + |w| <= b
  {
    var last := i + |w| - 1;
    assert s[i] == s[i..i + |w|][0] == w[0];
    assert s[last] == s[i..i + |w|][|w| - 1] == w[|w| - 1];
  }

  /** An occurrence in `s` inside the part `t` is an occurrence in `t`. */
  lemma SliceKeepsOccurrence(s: string, t: string, a: nat, w: string, i: int)
    requires a <= i && i + |w| <= a + |t| <= |s| && OccursAt(s, w, i) && t == s[a..a + |t|]
    ensures Contains(t, w)
  {
    var j := i - a;
    forall k | 0 <= k < |w| ensures t[j..j + |w|][k] == w[k] {
      assert t[j + k] == s[i + k] == s[i..i + |w|][k];
    }
    OccursContains(t, w, j);
  }

  /** `s.strip()` keeps every occurrence of a word that holds no whitespace. */
  lemma StripKeepsWord(s: string, w: string)
    requires |w| > 0 && NoSpace(w)
    ensures Contains(Strip(s), w) <==> Contains(s, w)
  {
    var l := StripLeft(s);
    var t := StripRight(l);
    var a := |s| - |l|;
    assert t == s[a..a + |t|];
    forall k | a + |t| <= k < |s| ensures IsSpace(s[k]) {
      assert s[k] == l[k - a];
    }
    CropKeepsWord(s, t, a, w);
  }

  // ---------------------------------------------------------------------------
  // str.replace
  // ---------------------------------------------------------------------------

  /** `s.replace(pat, rep)`: every occurrence of `pat`, found left to right
      without overlap, is replaced by `rep`; text in which the pattern does not
      occur comes back unchanged. */
  function ReplaceAll(s: string, pat: string, rep: string): (r: string)
    ensures |pat| > 0 && !Contains(s, pat) ==> r == s
    decreases |s|
  {
    if |pat| == 0 then
      rep + (if |s| == 0 then [] else [s[0]] + ReplaceAll(s[1..], pat, rep))
    else if HasPrefix(s, pat) then
      rep + ReplaceAll(s[|pat|..], pat, rep)
    else if |s| == 0 then []
    else [s[0]] + ReplaceAll(s[1..], pat, rep)
  }

  /** When the replacement starts like the pattern, a word that does not hold the
      pattern's first letter starts the result exactly when it starts the input. */
  lemma {:induction false} ReplacePrefix(s: string, pat: string, rep: string, w: string)
    requires |pat| > 0 && |rep| > 0 && rep[0] == pat[0]
    requires Avoids(w, pat[0])
    ensures HasPrefix(ReplaceAll(s, pat, rep), w) <==> HasPrefix(s, w)
    decreases |s|
  {
    var r := ReplaceAll(s, pat, rep);
    if |w| == 0 {
    } else if HasPrefix(s, pat) {
      assert r[0] == pat[0] && s[0] == pat[0];
    } else if |s| > 0 {
      var r' := ReplaceAll(s[1..], pat, rep);
      assert r == [s[0]] + r';
      ReplacePrefix(s[1..], pat, rep, w[1..]);
      if HasPrefix(r, w) {
        assert r'[..|w| - 1] == r[1..|w|] == w[1..];
        assert s[..|w|] == [s[0]] + s[1..][..|w| - 1];
      }
      if HasPrefix(s, w) {
        assert s[1..][..|w| - 1] == s[1..|w|] == w[1..];
        assert r[..|w|] == [s[0]] + r'[..|w| - 1];
      }
    }
  }

  /** A word in which neither the pattern nor the replacement can hold an
      occurrence that starts early, and which never holds the pattern's first
      letter, occurs after the replacement exactly when it occurs before. */
  lemma {:induction false} ReplaceKeepsWord(s: string, pat: string, rep: string, w: string)
    requires |pat| > 0 && |rep| > 0 && rep[0] == pat[0]
    requires Avoids(w, pat[0])
    requires NoOverlap(pat, w) && NoOverlap(rep, w)
    ensures Contains(ReplaceAll(s, pat, rep), w) <==> Contains(s, w)
    decreases |s|
  {
    var r := ReplaceAll(s, pat, rep);
    if HasPrefix(s, pat) {
      var t := s[|pat|..];
      assert s == pat + t;
      assert r == rep + ReplaceAll(t, pat, rep);
      SkipNoOverlap(rep, ReplaceAll(t, pat, rep), w);
      SkipNoOverlap(pat, t, w);
      ReplaceKeepsWord(t, pat, rep, w);
    } else if |s| > 0 {
      var r' := ReplaceAll(s[1..], pat, rep);
      assert r == [s[0]] + r';
      assert r[1..] == r';
      ReplacePrefix(s, pat, rep, w);
      ReplaceKeepsWord(s[1..], pat, rep, w);
    } else {
      assert r == [];
    }
  }

  /** When the replacement extends the pattern, and the pattern's first letter
      does not come back in it, the replacement occurs in the result exactly when
      the pattern occurs in the input. */
  lemma {:induction false} ReplaceFindsReplacement(s: string, pat: string, rep: string)
    requires |pat| > 0 && HasPrefix(rep, pat)
    requires Avoids(pat[1..], pat[0])
    ensures Contains(ReplaceAll(s, pat, rep), rep) <==> Contains(s, pat)
    decreases |s|
  {
    var r := ReplaceAll(s, pat, rep);
    if HasPrefix(s, pat) {
      assert r == rep + ReplaceAll(s[|pat|..], pat, rep);
      assert HasPrefix(r, rep);
    } else if |s| > 0 {
      var r' := ReplaceAll(s[1..], pat, rep);
      assert r == [s[0]] + r';
      assert r[1..] == r';
      ReplaceFindsReplacement(s[1..], pat, rep);
      if HasPrefix(r, rep) {
        var tail := pat[1..];
        ReplacePrefix(s[1..], pat, rep, tail);
      }
    } else {
      assert r == [];
    }
  }

  // ---------------------------------------------------------------------------
  // strip_accents: NFKD decomposition, then removal of combining marks
  // ---------------------------------------------------------------------------

  const Grave: char := '\U{300}'
  const Acute: char := '\U{301}'
  const Circumflex: char := '\U{302}'
  const Tilde: char := '\U{303}'
  const Diaeresis: char := '\U{308}'
  const RingAbove: char := '\U{30A}'
  const Macron: char := '\U{304}'
  const Cedilla: char := '\U{327}'

  /** `unicodedata.combining(c) != 0`, for the block of combining diacritical
      marks: every mark of U+0300..U+036F but the grapheme joiner U+034F, whose
      combining class is 0. No ASCII character is a combining mark. */
  predicate IsCombining(c: char)
    ensures IsCombining(c) ==> c >= '\U{80}'
  {
    '\U{300}' <= c <= '\U{36F}' && c != '\U{34F}'
  }

  /** The NFKD decomposition of one character, for the Latin-1 letters with a
      diacritic and the Latin-1 compatibility characters whose decomposition is
      ASCII, or a space and a combining mark; every other character decomposes
      to itself. */
  function Decompose(c: char): (r: seq<char>)
    ensures c < '\U{80}' ==> r == [c]
    ensures r == [c] || forall x :: x in r ==> x < '\U{80}' || IsCombining(x)
  {
    match c
    case 'À' => ['A', Grave]      case 'Á' => ['A', Acute]
    case 'Â' => ['A', Circumflex] case 'Ã' => ['A', Tilde]
    case 'Ä' => ['A', Diaeresis]  case 'Å' => ['A', RingAbove]
    case 'Ç' => ['C', Cedilla]
    case 'È' => ['E', Grave]      case 'É' => ['E', Acute]
    case 'Ê' => ['E', Circumflex] case 'Ë' => ['E', Diaeresis]
    case 'Ì' => ['I', Grave]      case 'Í' => ['I', Acute]
    case 'Î' => ['I', Circumflex] case 'Ï' => ['I', Diaeresis]
    case 'Ñ' => ['N', Tilde]
    case 'Ò' => ['O', Grave]      case 'Ó' => ['O', Acute]
    case 'Ô' => ['O', Circumflex] case 'Õ' => ['O', Tilde]
    case 'Ö' => ['O', Diaeresis]
    case 'Ù' => ['U', Grave]      case 'Ú' => ['U', Acute]
    case 'Û' => ['U', Circumflex] case 'Ü' => ['U', Diaeresis]
    case 'Ý' => ['Y', Acute]      case 'Ÿ' => ['Y', Diaeresis]
    case 'à' => ['a', Grave]      case 'á' => ['a', Acute]
    case 'â' => ['a', Circumflex] case 'ã' => ['a', Tilde]
    case 'ä' => ['a', Diaeresis]  case 'å' => ['a', RingAbove]
    case 'ç' => ['c', Cedilla]
    case 'è' => ['e', Grave]      case 'é' => ['e', Acute]
    case 'ê' => ['e', Circumflex] case 'ë' => ['e', Diaeresis]
    case 'ì' => ['i', Grave]      case 'í' => ['i', Acute]
    case 'î' => ['i', Circumflex] case 'ï' => ['i', Diaeresis]
    case 'ñ' => ['n', Tilde]
    case 'ò' => ['o', Grave]      case 'ó' => ['o', Acute]
    case 'ô' => ['o', Circumflex] case 'õ' => ['o', Tilde]
    case 'ö' => ['o', Diaeresis]
    case 'ù' => ['u', Grave]      case 'ú' => ['u', Acute]
    case 'û' => ['u', Circumflex] case 'ü' => ['u', Diaeresis]
    case 'ý' => ['y', Acute]      case 'ÿ' => ['y', Diaeresis]
    case '\U{A0}' => [' ']        // no-break space
    case '\U{A8}' => [' ', Diaeresis]               // diaeresis
    case '\U{AF}' => [' ', Macron]                  // macron
    case '\U{B4}' => [' ', Acute]                   // acute accent
    case '\U{B8}' => [' ', Cedilla]                 // cedilla
    case 'ª' => ['a']             case 'º' => ['o']
    case '¹' => ['1']             case '²' => ['2']             case '³' => ['3']
    case _ => [c]
  }

  /** Every character of `s` is a combining mark or decomposes to itself. */
  ghost predicate Decomposed(s: string) {
    forall k :: 0 <= k < |s| ==> IsCombining(s[k]) || Decompose(s[k]) == [s[k]]
  }

  /** `unicodedata.normalize('NFKD', s)`, character by character. */
  function Nfkd(s: string): string {
    if |s| == 0 then [] else Decompose(s[0]) + Nfkd(s[1..])
  }

  /** Keeps the characters that are not combining marks, in order. */
  function RemoveCombining(s: string): (r: string)
    ensures forall k :: 0 <= k < |r| ==> !IsCombining(r[k])
    ensures |r| <= |s|
  {
    if |s| == 0 then []
    else if IsCombining(s[0]) then RemoveCombining(s[1..])
    else [s[0]] + RemoveCombining(s[1..])
  }

  /** `strip_accents(s)` for a string that is not missing. */
  function StripAccents(s: string): (r: string)
    ensures forall k :: 0 <= k < |r| ==> !IsCombining(r[k])
  {
    RemoveCombining(Nfkd(s))
  }

  /** A decomposition produces nothing that decomposes further. */
  lemma {:induction false} NfkdDecomposed(s: string)
    ensures Decomposed(Nfkd(s))
  {
    if |s| > 0 {
      var d := Decompose(s[0]);
      NfkdDecomposed(s[1..]);
      assert Decomposed(d);
      var t := Nfkd(s);
      assert t == d + Nfkd(s[1..]);
      forall k | 0 <= k < |t| ensures IsCombining(t[k]) || Decompose(t[k]) == [t[k]] {
        if k >= |d| {
          assert t[k] == Nfkd(s[1..])[k - |d|];
        }
      }
    }
  }

  /** Removing the combining marks keeps the other characters. */
  lemma {:induction false} RemoveCombiningDecomposed(s: string)
    requires Decomposed(s)
    ensures Decomposed(RemoveCombining(s))
  {
    if |s| > 0 {
      RemoveCombiningDecomposed(s[1..]);
      var r := RemoveCombining(s[1..]);
      if !IsCombining(s[0]) {
        assert RemoveCombining(s) == [s[0]] + r;
      }
    }
  }

  /** A string of characters that decompose to themselves is its own NFKD form. */
  lemma {:induction false} NfkdFixed(s: string)
    requires forall k :: 0 <= k < |s| ==> Decompose(s[k]) == [s[k]]
    ensures Nfkd(s) == s
  {
    if |s| > 0 {
      NfkdFixed(s[1..]);
      assert s == [s[0]] + s[1..];
    }
  }

  /** A string without combining marks is left alone by their removal. */
  lemma {:induction false} RemoveCombiningFixed(s: string)
    requires forall k :: 0 <= k < |s| ==> !IsCombining(s[k])
    ensures RemoveCombining(s) == s
  {
    if |s| > 0 {
      RemoveCombiningFixed(s[1..]);
      assert s == [s[0]] + s[1..];
    }
  }

  /** NFKD works character by character. */
  lemma {:induction false} NfkdAppend(a: string, b: string)
    ensures Nfkd(a + b) == Nfkd(a) + Nfkd(b)
  {
    if |a| > 0 {
      assert (a + b)[1..] == a[1..] + b;
      NfkdAppend(a[1..], b);
    } else {
      assert a + b == b;
    }
  }

  /** Removing combining marks works character by character. */
  lemma {:induction false} RemoveCombiningAppend(a: string, b: string)
    ensures RemoveCombining(a + b) == RemoveCombining(a) + RemoveCombining(b)
  {
    if |a| > 0 {
      assert (a + b)[1..] == a[1..] + b;
      RemoveCombiningAppend(a[1..], b);
    } else {
      assert a + b == b;
    }
  }

  /** `strip_accents` works character by character. */
  lemma StripAccentsAppend(a: string, b: string)
    ensures StripAccents(a + b) == StripAccents(a) + StripAccents(b)
  {
    NfkdAppend(a, b);
    RemoveCombiningAppend(Nfkd(a), Nfkd(b));
  }

  /** `strip_accents` is idempotent. */
  lemma StripAccentsIdempotent(s: string)
    ensures StripAccents(StripAccents(s)) == StripAccents(s)
  {
    var t := StripAccents(s);
    NfkdDecomposed(s);
    RemoveCombiningDecomposed(Nfkd(s));
    NfkdFixed(t);
    RemoveCombiningFixed(t);
  }

  /** `strip_accents` leaves plain ASCII text unchanged. */
  lemma StripAccentsAscii(s: string)
    requires forall k :: 0 <= k < |s| ==> s[k] < '\U{80}'
    ensures StripAccents(s) == s
  {
    NfkdFixed(s);
    RemoveCombiningFixed(s);
  }
}
