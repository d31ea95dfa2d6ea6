/** `Cleaner`: script normalisation of Dari/Persian text in three ordered
    passes (character map, whitespace collapse, zero-width removal). */
module Cleaner {
  import opened Wrappers
  import opened Text
  import opened Articles

  const ArabicYeh: char := '\U{064A}'
  const FarsiYeh: char := '\U{06CC}'
  const ArabicKaf: char := '\U{0643}'
  const Keheh: char := '\U{06A9}'
  const Zwnj: char := '\U{200C}'
  const Zwj: char := '\U{200D}'

  /** `Cleaner.char_map`, in insertion order. */
  const CharMap: seq<(char, char)> := [(ArabicYeh, FarsiYeh), (ArabicKaf, Keheh)]

  /** `s.replace(a, b)` for single characters `a` and `b`. */
  function Replace(s: string, a: char, b: char): (r: string)
    ensures |r| == |s|
    ensures forall i :: 0 <= i < |s| ==> r[i] == if s[i] == a then b else s[i]
  {
    if |s| == 0 then ""
    else [if s[0] == a then b else s[0]] + Replace(s[1..], a, b)
  }

  /** One character pushed through the entries of a map in order, each
      entry rewriting it when it equals the entry's key. */
  function ReplaceChain(c: char, pairs: seq<(char, char)>): char
    decreases |pairs|
  {
    if |pairs| == 0 then c
    else ReplaceChain(if c == pairs[0].0 then pairs[0].1 else c, pairs[1..])
  }

  /** The loop over `char_map.items()`: one `replace` per entry, in order.
      Each position ends up with its own character pushed through the
      whole chain, so the loop acts character by character. */
  function ReplaceAll(s: string, pairs: seq<(char, char)>): (r: string)
    ensures |r| == |s|
    ensures forall i :: 0 <= i < |s| ==> r[i] == ReplaceChain(s[i], pairs)
    decreases |pairs|
  {
    if |pairs| == 0 then s
    else ReplaceAll(Replace(s, pairs[0].0, pairs[0].1), pairs[1..])
  }

  /** What the character map does to one character. */
  function Translate(c: char): char {
    if c == ArabicYeh then FarsiYeh
    else if c == ArabicKaf then Keheh
    else c
  }

  /** Because no replacement produces a character that a later entry
      replaces, the sequential `replace` loop is a per-character map. */
  lemma CharMapIsPerCharacter(s: string)
    ensures var r := ReplaceAll(s, CharMap);
      forall i :: 0 <= i < |s| ==> r[i] == Translate(s[i])
  {
    var r1 := Replace(s, ArabicYeh, FarsiYeh);
    assert ReplaceAll(s, CharMap) == ReplaceAll(r1, CharMap[1..]);
    assert ReplaceAll(r1, CharMap[1..]) == Replace(r1, ArabicKaf, Keheh);
  }

  /** Pass 1 of the normaliser: the character map applied to `s`. */
  function ApplyCharMap(s: string): (r: string)
    ensures |r| == |s|
    ensures forall i :: 0 <= i < |s| ==> r[i] == Translate(s[i])
    ensures ArabicYeh !in r && ArabicKaf !in r
    ensures Zwnj !in s && Zwj !in s ==> Zwnj !in r && Zwj !in r
  {
    CharMapIsPerCharacter(s);
    ReplaceAll(s, CharMap)
  }

  /** `re.sub(r"\s+", " ", s)`: every maximal run of whitespace becomes one
      plain space (see `CollapseShape`). */
  function Collapse(s: string): (r: string)
    ensures |r| <= |s|
    decreases |s|
  {
    if |s| == 0 then ""
    else if IsSpace(s[0]) then " " + Collapse(s[LeadingSpaces(s)..])
    else [s[0]] + Collapse(s[1..])
  }

  /** What the substitution of whitespace runs guarantees: the only
      whitespace left is U+0020, never two in a row, and every other
      character is kept (`CollapseAfterWord` says where the spaces land). */
  lemma CollapseShape(s: string)
    ensures var r := Collapse(s);
      && (|r| == 0 <==> |s| == 0)
      && (|r| > 0 ==> (r[0] == ' ' <==> IsSpace(s[0])))
      && PlainSpacesOnly(r) && NoDoubleSpace(r)
      && forall c :: !IsSpace(c) ==> (c in r <==> c in s)
  {
    CollapseStart(s);
    CollapseSpaces(s);
    forall c | !IsSpace(c) ensures c in Collapse(s) <==> c in s {
      CollapseKeeps(s, c);
    }
  }

  /** The result is empty iff the input is, and starts with a space iff
      the input starts with whitespace. */
  lemma CollapseStart(s: string)
    ensures var r := Collapse(s);
      && (|r| == 0 <==> |s| == 0)
      && (|r| > 0 ==> (r[0] == ' ' <==> IsSpace(s[0])))
  {
  }

  /** The only whitespace left is single U+0020 characters. */
  lemma {:induction false} CollapseSpaces(s: string)
    ensures PlainSpacesOnly(Collapse(s)) && NoDoubleSpace(Collapse(s))
    decreases |s|
  {
    if |s| > 0 {
      if IsSpace(s[0]) {
        var rest := s[LeadingSpaces(s)..];
        CollapseSpaces(rest);
        CollapseStart(rest);
        var t := Collapse(rest);
        assert Collapse(s) == " " + t;
        assert |t| > 0 ==> t[0] != ' ';
      } else {
        var t := Collapse(s[1..]);
        CollapseSpaces(s[1..]);
        assert Collapse(s) == [s[0]] + t;
      }
    }
  }

  /** Every character other than whitespace is kept. */
  lemma {:induction false} CollapseKeeps(s: string, c: char)
    requires !IsSpace(c)
    ensures c in Collapse(s) <==> c in s
    decreases |s|
  {
    if |s| > 0 {
      if IsSpace(s[0]) {
        var k := LeadingSpaces(s);
        var rest := s[k..];
        CollapseKeeps(rest, c);
        assert Collapse(s) == " " + Collapse(rest);
        assert s == s[..k] + rest;
        assert c !in s[..k];
      } else {
        CollapseKeeps(s[1..], c);
        assert Collapse(s) == [s[0]] + Collapse(s[1..]);
        assert s == [s[0]] + s[1..];
      }
    }
  }

  /** `re.sub(r"[\u200c\u200d]", "", s)` */
  function RemoveZeroWidth(s: string): (r: string)
    ensures |r| <= |s|
    ensures Zwnj !in r && Zwj !in r
  {
    if |s| == 0 then ""
    else (if s[0] == Zwnj || s[0] == Zwj then "" else [s[0]]) + RemoveZeroWidth(s[1..])
  }

  /** Pass 3 removes U+200C and U+200D and nothing else. */
  lemma {:induction false} RemoveZeroWidthKeeps(s: string)
    ensures forall c :: c != Zwnj && c != Zwj ==> (c in RemoveZeroWidth(s) <==> c in s)
    ensures Zwnj !in s && Zwj !in s ==> RemoveZeroWidth(s) == s
  {
    if |s| > 0 {
      RemoveZeroWidthKeeps(s[1..]);
      assert s == [s[0]] + s[1..];
    }
  }

  /** The only whitespace character present is U+0020. */
  ghost predicate PlainSpacesOnly(s: string) {
    forall c :: c in s && IsSpace(c) ==> c == ' '
  }

  ghost predicate NoDoubleSpace(s: string) {
    forall i :: 0 <= i < |s| - 1 && s[i] == ' ' ==> s[i + 1] != ' '
  }

  /** The shape of every string the normaliser leaves unchanged. */
  ghost predicate Canonical(s: string) {
    && ArabicYeh !in s && ArabicKaf !in s
    && Zwnj !in s && Zwj !in s
    && PlainSpacesOnly(s) && NoDoubleSpace(s)
    && (|s| > 0 ==> s[0] != ' ' && s[|s| - 1] != ' ')
  }

  /** Pass 2 of the normaliser: `re.sub(r"\s+", " ", s).strip()`. */
  function Squeeze(s: string): (r: string)
    ensures |r| <= |s|
    ensures PlainSpacesOnly(r) && NoDoubleSpace(r)
    ensures |r| > 0 ==> r[0] != ' ' && r[|r| - 1] != ' '
    ensures forall c :: c in r ==> c == ' ' || c in s
    ensures r == Strip(Collapse(s))
    ensures Visible(r) == Visible(s)
  {
    var t := Collapse(s);
    CollapseShape(s);
    CollapseKeepsVisible(s);
    StripKeepsVisible(t);
    var lo := LeadingSpaces(t);
    SliceKeepsShape(t, lo, TrailingCut(t, lo));
    Strip(t)
  }

  /** `Cleaner.normalize_text` */
  function NormalizeText(text: string): (r: string)
    ensures text == "" ==> r == ""
    ensures |r| <= |text|
    ensures ArabicYeh !in r && ArabicKaf !in r
    ensures Zwnj !in r && Zwj !in r
    ensures PlainSpacesOnly(r)
  {
    if text == "" then ""
    else
      var t := ApplyCharMap(text);
      var u := Squeeze(t);
      assert ArabicYeh !in u && ArabicKaf !in u;
      RemoveZeroWidthKeeps(u);
      RemoveZeroWidth(u)
  }

  /** Slicing keeps the facts about which characters occur and how spaces
      sit next to each other. */
  lemma SliceKeepsShape(s: string, lo: nat, hi: nat)
    requires lo <= hi <= |s|
    requires PlainSpacesOnly(s) && NoDoubleSpace(s)
    ensures PlainSpacesOnly(s[lo..hi]) && NoDoubleSpace(s[lo..hi])
    ensures forall c :: c in s[lo..hi] ==> c in s
  {
    var t := s[lo..hi];
    assert forall i :: 0 <= i < |t| ==> t[i] == s[lo + i];
  }

  lemma {:induction false} CollapseFixesSpacedText(s: string)
    requires PlainSpacesOnly(s) && NoDoubleSpace(s)
    ensures Collapse(s) == s
    decreases |s|
  {
    if |s| > 0 {
      assert s[0] in s;
      SliceKeepsShape(s, 1, |s|);
      if s[0] == ' ' {
        if |s| > 1 {
          assert s[1] in s && s[1] != ' ';
        }
        assert LeadingSpaces(s[1..]) == 0;
        CollapseFixesSpacedText(s[1..]);
        assert s == " " + s[1..];
      } else {
        CollapseFixesSpacedText(s[1..]);
        assert s == [s[0]] + s[1..];
      }
    }
  }

  /** The normaliser leaves a canonical string unchanged. */
  lemma CanonicalIsFixed(y: string)
    requires Canonical(y)
    ensures NormalizeText(y) == y
  {
    if y != "" {
      NoArabicUnchanged(y);
      CollapseFixesSpacedText(y);
      assert y[0] in y && y[|y| - 1] in y;
      assert LeadingSpaces(y) == 0;
      assert TrailingCut(y, 0) == |y|;
      assert Squeeze(y) == y;
      RemoveZeroWidthKeeps(y);
    }
  }

  /** Without zero-width characters in the input, the result is canonical. */
  lemma NormalizeWithoutZeroWidthIsCanonical(x: string)
    requires Zwnj !in x && Zwj !in x
    ensures Canonical(NormalizeText(x))
  {
    if x != "" {
      var t := ApplyCharMap(x);
      var u := Squeeze(t);
      SqueezeIsCanonical(t);
      RemoveZeroWidthKeeps(u);
      NormalizeInPasses(x);
    }
  }

  /** Pass 2 yields a canonical string from text without Arabic Yeh/Kaf
      and zero-width characters. */
  lemma SqueezeIsCanonical(t: string)
    requires ArabicYeh !in t && ArabicKaf !in t && Zwnj !in t && Zwj !in t
    ensures Canonical(Squeeze(t))
  {
    var u := Squeeze(t);
    assert Zwnj !in u && Zwj !in u;
    assert ArabicYeh !in u && ArabicKaf !in u;
  }

  /** Normalising twice is normalising once, for text without U+200C and
      U+200D. */
  lemma NormalizeIdempotentWithoutZeroWidth(x: string)
    requires Zwnj !in x && Zwj !in x
    ensures NormalizeText(NormalizeText(x)) == NormalizeText(x)
  {
    NormalizeWithoutZeroWidthIsCanonical(x);
    CanonicalIsFixed(NormalizeText(x));
  }

  /** The fixed points of the normaliser are exactly the canonical strings. */
  lemma FixedPointsAreCanonical(y: string)
    ensures NormalizeText(y) == y <==> Canonical(y)
  {
    if Canonical(y) {
      CanonicalIsFixed(y);
    }
    if NormalizeText(y) == y {
      NormalizeWithoutZeroWidthIsCanonical(y);
    }
  }

  /** A second pass always reaches a fixed point: the first pass removes
      every zero-width character. */
  lemma SecondPassIsStable(x: string)
    ensures NormalizeText(NormalizeText(NormalizeText(x))) == NormalizeText(NormalizeText(x))
  {
    NormalizeIdempotentWithoutZeroWidth(NormalizeText(x));
  }

  /** A run of whitespace after a word becomes one space. */
  lemma {:induction false} CollapseAfterWord(a: string, w: string, b: string)
    requires forall i :: 0 <= i < |a| ==> !IsSpace(a[i])
    requires |w| > 0 && forall i :: 0 <= i < |w| ==> IsSpace(w[i])
    requires |b| > 0 ==> !IsSpace(b[0])
    ensures Collapse(a + w + b) == a + " " + Collapse(b)
    decreases |a|
  {
    if |a| > 0 {
      var rest := a[1..] + w + b;
      CollapseOfWordChar(a + w + b, rest);
      CollapseAfterWord(a[1..], w, b);
      ConsRegroup(a, " " + Collapse(b));
    } else {
      CollapseOfRun(w, b);
      assert a + w + b == w + b;
    }
  }

  lemma CollapseOfWordChar(s: string, rest: string)
    requires |s| > 0 && !IsSpace(s[0]) && s[1..] == rest
    ensures Collapse(s) == [s[0]] + Collapse(rest)
  {
  }

  lemma CollapseOfRun(w: string, b: string)
    requires |w| > 0 && forall i :: 0 <= i < |w| ==> IsSpace(w[i])
    requires |b| > 0 ==> !IsSpace(b[0])
    ensures Collapse(w + b) == " " + Collapse(b)
  {
    var s := w + b;
    assert s[0] == w[0];
    LeadingSpacesOfRun(w, b);
    assert s[|w|..] == b;
  }

  lemma {:induction false} LeadingSpacesOfRun(w: string, b: string)
    requires forall i :: 0 <= i < |w| ==> IsSpace(w[i])
    requires |b| > 0 ==> !IsSpace(b[0])
    ensures LeadingSpaces(w + b) == |w|
    decreases |w|
  {
    if |w| > 0 {
      LeadingSpacesOfRun(w[1..], b);
      assert (w + b)[1..] == w[1..] + b;
    } else {
      assert w + b == b;
    }
  }

  lemma {:induction false} RemoveZeroWidthConcat(a: string, b: string)
    ensures RemoveZeroWidth(a + b) == RemoveZeroWidth(a) + RemoveZeroWidth(b)
    decreases |a|
  {
    if |a| > 0 {
      var h := if a[0] == Zwnj || a[0] == Zwj then "" else [a[0]];
      assert (a + b)[0] == a[0] && (a + b)[1..] == a[1..] + b;
      assert RemoveZeroWidth(a + b) == h + RemoveZeroWidth(a[1..] + b);
      assert RemoveZeroWidth(a) == h + RemoveZeroWidth(a[1..]);
      RemoveZeroWidthConcat(a[1..], b);
      Assoc(h, RemoveZeroWidth(a[1..]), RemoveZeroWidth(b));
    } else {
      assert a + b == b;
    }
  }

  lemma TrimmedIsStripped(s: string)
    requires |s| > 0 ==> !IsSpace(s[0]) && !IsSpace(s[|s| - 1])
    ensures Strip(s) == s
  {
    if |s| > 0 {
      assert LeadingSpaces(s) == 0;
      assert TrailingCut(s, 0) == |s|;
    }
  }

  /** Two words around one whitespace run: the run becomes one space and
      each word gets passes 1 and 3 only. */
  lemma NormalizeTwoWords(a: string, w: string, b: string)
    requires |a| > 0 && forall i :: 0 <= i < |a| ==> !IsSpace(a[i])
    requires |w| > 0 && forall i :: 0 <= i < |w| ==> IsSpace(w[i])
    requires |b| > 0 && forall i :: 0 <= i < |b| ==> !IsSpace(b[i])
    ensures NormalizeText(a + w + b)
         == RemoveZeroWidth(ApplyCharMap(a)) + " " + RemoveZeroWidth(ApplyCharMap(b))
  {
    var x := a + w + b;
    var t := ApplyCharMap(x);
    var ta, tw, tb := ApplyCharMap(a), ApplyCharMap(w), ApplyCharMap(b);
    assert t == ta + tw + tb by {
      forall i | 0 <= i < |x| ensures t[i] == (ta + tw + tb)[i] {
        if i < |a| { assert x[i] == a[i]; }
        else if i < |a| + |w| { assert x[i] == w[i - |a|]; }
        else { assert x[i] == b[i - |a| - |w|]; }
      }
    }
    SqueezeAfterWord(ta, tw, tb);
    RemoveZeroWidthConcat(ta + " ", tb);
    RemoveZeroWidthConcat(ta, " ");
    RemoveZeroWidthKeeps(" ");
  }

  /** Pass 2 on a word, a whitespace run and a whitespace-free tail. */
  lemma SqueezeAfterWord(a: string, w: string, b: string)
    requires |a| > 0 && forall i :: 0 <= i < |a| ==> !IsSpace(a[i])
    requires |w| > 0 && forall i :: 0 <= i < |w| ==> IsSpace(w[i])
    requires |b| > 0 && forall i :: 0 <= i < |b| ==> !IsSpace(b[i])
    ensures Squeeze(a + w + b) == a + " " + b
  {
    forall c | c in b ensures !IsSpace(c) {
      var i :| 0 <= i < |b| && b[i] == c;
    }
    CollapseAfterWord(a, w, b);
    CollapseFixesSpacedText(b);
    TrimmedIsStripped(a + " " + b);
  }

  /** A zero-width character alone between two spaces leaves both spaces
      behind. */
  lemma NormalizeSpacedZeroWidth(a: string, b: string)
    requires PlainWord(a) && PlainWord(b)
    ensures NormalizeText(a + " " + [Zwnj] + " " + b) == a + "  " + b
  {
    var x := a + " " + [Zwnj] + " " + b;
    PlainWordFacts(a);
    PlainWordFacts(b);
    SqueezeSpacedZeroWidth(a, b);
    RemoveSpacedZeroWidth(a, b);
    NormalizeInPasses(x);
  }

  lemma RemoveSpacedZeroWidth(a: string, b: string)
    requires Zwnj !in a && Zwj !in a && Zwnj !in b && Zwj !in b
    ensures RemoveZeroWidth(a + " " + [Zwnj] + " " + b) == a + "  " + b
  {
    var sp := " ";
    assert Zwnj !in sp && Zwj !in sp;
    RemoveBetween(a, sp, b);
    assert sp + sp == "  ";
  }

  /** A zero-width character between two copies of a separator goes, and
      everything around it stays. */
  lemma RemoveBetween(a: string, sp: string, b: string)
    requires Zwnj !in a && Zwj !in a && Zwnj !in b && Zwj !in b
    requires Zwnj !in sp && Zwj !in sp
    ensures RemoveZeroWidth(a + sp + [Zwnj] + sp + b) == a + (sp + sp) + b
  {
    var l, r := a + sp, sp + b;
    Regroup(a, sp, [Zwnj], b);
    RemoveOneZeroWidth(l, r);
    Regroup(a, sp, [], b);
  }

  lemma SliceThree<T>(s: seq<T>, lo: int, hi: int)
    requires 0 <= lo <= hi <= |s|
    ensures s == s[..lo] + s[lo..hi] + s[hi..]
  {
  }

  lemma Assoc<T>(x: seq<T>, y: seq<T>, z: seq<T>)
    ensures x + (y + z) == (x + y) + z
  {
  }

  /** Putting a sequence's first element back in front of its tail. */
  lemma ConsRegroup<T>(a: seq<T>, rest: seq<T>)
    requires |a| > 0
    ensures [a[0]] + (a[1..] + rest) == a + rest
  {
    assert a == [a[0]] + a[1..];
  }

  /** Concatenation regrouped around a middle piece. */
  lemma Regroup<T>(a: seq<T>, sp: seq<T>, z: seq<T>, b: seq<T>)
    ensures a + sp + z + sp + b == (a + sp) + z + (sp + b)
    ensures (a + sp) + (sp + b) == a + (sp + sp) + b
  {
  }

  /** `normalize_text` on non-empty text is its three passes in order. */
  lemma NormalizeInPasses(x: string)
    requires x != ""
    ensures NormalizeText(x) == RemoveZeroWidth(Squeeze(ApplyCharMap(x)))
  {
  }

  lemma {:induction false} RemoveOneZeroWidth(l: string, r: string)
    requires Zwnj !in l && Zwj !in l && Zwnj !in r && Zwj !in r
    ensures RemoveZeroWidth(l + [Zwnj] + r) == l + r
    decreases |l|
  {
    var s := l + [Zwnj] + r;
    if |l| == 0 {
      assert s[0] == Zwnj && s[1..] == r;
      RemoveZeroWidthKeeps(r);
    } else {
      assert s[0] == l[0] && s[1..] == l[1..] + [Zwnj] + r;
      RemoveOneZeroWidth(l[1..], r);
      assert l == [l[0]] + l[1..];
    }
  }

  lemma SqueezeSpacedZeroWidth(a: string, b: string)
    requires PlainWord(a) && PlainWord(b)
    ensures Squeeze(ApplyCharMap(a + " " + [Zwnj] + " " + b)) == a + " " + [Zwnj] + " " + b
  {
    var x := a + " " + [Zwnj] + " " + b;
    PlainWordFacts(a);
    PlainWordFacts(b);
    NoArabicUnchanged(x);
    var z := [Zwnj];
    assert !IsSpace(Zwnj);
    var tail := z + " " + b;
    assert x == a + " " + tail;
    CollapseAfterWord(a, " ", tail);
    CollapseAfterWord(z, " ", b);
    forall c | c in b ensures !IsSpace(c) {
      var i :| 0 <= i < |b| && b[i] == c;
    }
    CollapseFixesSpacedText(b);
    assert Collapse(x) == x;
    TrimmedIsStripped(x);
  }

  /** The reference round trip: `"كتاب  يار‌"` becomes `"کتاب یار"`. */
  lemma ReferenceExample(x: string)
    requires x == "\U{0643}\U{062A}\U{0627}\U{0628}  \U{064A}\U{0627}\U{0631}\U{200C}"
    ensures NormalizeText(x) == "\U{06A9}\U{062A}\U{0627}\U{0628} \U{06CC}\U{0627}\U{0631}"
  {
    var a, w, b := ReferencePieces(x);
    NormalizeTwoWords(a, w, b);
    var ra, rb := RemoveZeroWidth(ApplyCharMap(a)), RemoveZeroWidth(ApplyCharMap(b));
    ReferenceFirstWord(a);
    ReferenceSecondWord(b);
    ReferenceJoin(ra, rb);
  }

  /** The reference input as two words around a run of two spaces. */
  lemma ReferencePieces(x: string) returns (a: string, w: string, b: string)
    requires x == "\U{0643}\U{062A}\U{0627}\U{0628}  \U{064A}\U{0627}\U{0631}\U{200C}"
    ensures x == a + w + b
    ensures a == "\U{0643}\U{062A}\U{0627}\U{0628}" && b == "\U{064A}\U{0627}\U{0631}\U{200C}"
    ensures |a| > 0 && forall i :: 0 <= i < |a| ==> !IsSpace(a[i])
    ensures |w| > 0 && forall i :: 0 <= i < |w| ==> IsSpace(w[i])
    ensures |b| > 0 && forall i :: 0 <= i < |b| ==> !IsSpace(b[i])
  {
    a, w, b := x[..4], x[4..6], x[6..];
    assert x == a + w + b;
  }

  lemma ReferenceJoin(ra: string, rb: string)
    requires ra == "\U{06A9}\U{062A}\U{0627}\U{0628}"
    requires rb == "\U{06CC}\U{0627}\U{0631}"
    ensures ra + " " + rb == "\U{06A9}\U{062A}\U{0627}\U{0628} \U{06CC}\U{0627}\U{0631}"
  {
  }

  lemma ReferenceFirstWord(a: string)
    requires a == "\U{0643}\U{062A}\U{0627}\U{0628}"
    ensures RemoveZeroWidth(ApplyCharMap(a)) == "\U{06A9}\U{062A}\U{0627}\U{0628}"
  {
    var ta := ApplyCharMap(a);
    assert ta == "\U{06A9}\U{062A}\U{0627}\U{0628}";
    assert Zwnj !in ta && Zwj !in ta;
    RemoveZeroWidthKeeps(ta);
  }

  lemma ReferenceSecondWord(b: string)
    requires b == "\U{064A}\U{0627}\U{0631}\U{200C}"
    ensures RemoveZeroWidth(ApplyCharMap(b)) == "\U{06CC}\U{0627}\U{0631}"
  {
    var tb := ApplyCharMap(b);
    var w := tb[..3];
    assert w == "\U{06CC}\U{0627}\U{0631}";
    assert tb == w + [Zwnj] + [];
    assert Zwnj !in w && Zwj !in w;
    RemoveOneZeroWidth(w, []);
  }

  /** The normaliser is not idempotent: a zero-width character between two
      spaces is removed only after the spaces were collapsed around it. */
  lemma NotIdempotent(x: string)
    requires x == "a \U{200C} b"
    ensures NormalizeText(x) == "a  b"
    ensures NormalizeText(NormalizeText(x)) == "a b"
    ensures NormalizeText(NormalizeText(x)) != NormalizeText(x)
  {
    var a, b := SpacedZeroWidthPieces(x);
    NormalizeSpacedZeroWidth(a, b);
    DoubleSpaceWords(a, b);
    LetterJoins(a, b);
  }

  /** The example input as two letters around a spaced zero-width
      character. */
  lemma SpacedZeroWidthPieces(x: string) returns (a: string, b: string)
    requires x == "a \U{200C} b"
    ensures x == a + " " + [Zwnj] + " " + b
    ensures a == "a" && b == "b" && PlainWord(a) && PlainWord(b)
  {
    a, b := x[..1], x[4..];
    assert x == a + " " + [Zwnj] + " " + b;
  }

  lemma LetterJoins(a: string, b: string)
    requires a == "a" && b == "b"
    ensures a + "  " + b == "a  b" && a + " " + b == "a b"
  {
  }

  /** A word the normaliser leaves alone: no whitespace, no Arabic Yeh or
      Kaf and no zero-width character. */
  ghost predicate PlainWord(w: string) {
    |w| > 0 &&
    forall i :: 0 <= i < |w| ==>
      !IsSpace(w[i]) && w[i] != ArabicYeh && w[i] != ArabicKaf && w[i] != Zwnj && w[i] != Zwj
  }

  lemma PlainWordFacts(w: string)
    requires PlainWord(w)
    ensures forall i :: 0 <= i < |w| ==> !IsSpace(w[i])
    ensures ArabicYeh !in w && ArabicKaf !in w && Zwnj !in w && Zwj !in w
  {
  }

  /** The one-letter words of the examples are plain. */
  lemma LetterWord(w: string)
    requires w == "a" || w == "b"
    ensures PlainWord(w) && forall i :: 0 <= i < |w| ==> !IsSpace(w[i])
  {
  }

  /** Two spaces between plain letters become one. */
  lemma DoubleSpaceWords(a: string, b: string)
    requires a == "a" && b == "b"
    ensures NormalizeText(a + "  " + b) == a + " " + b
  {
    var w := DoubleSpaceRun();
    LetterWord(a);
    LetterWord(b);
    NormalizeTwoWords(a, w, b);
    PlainWordUnchanged(a);
    PlainWordUnchanged(b);
  }

  lemma DoubleSpaceRun() returns (w: string)
    ensures w == "  " && |w| > 0 && forall i :: 0 <= i < |w| ==> IsSpace(w[i])
  {
    w := "  ";
  }

  /** Passes 1 and 3 leave a word of plain letters alone. */
  lemma PlainWordUnchanged(w: string)
    requires w == "a" || w == "b"
    ensures RemoveZeroWidth(ApplyCharMap(w)) == w
  {
    NoArabicUnchanged(w);
    RemoveZeroWidthKeeps(w);
  }

  lemma NoArabicUnchanged(s: string)
    requires ArabicYeh !in s && ArabicKaf !in s
    ensures ApplyCharMap(s) == s
  {
    var t := ApplyCharMap(s);
    forall i | 0 <= i < |s| ensures t[i] == s[i] {
      assert s[i] in s;
    }
  }

  /** The characters a reader sees: everything but whitespace and the two
      zero-width joiners. */
  function Visible(s: string): (r: string)
    ensures |r| <= |s|
  {
    if |s| == 0 then ""
    else (if IsSpace(s[0]) || s[0] == Zwnj || s[0] == Zwj then "" else [s[0]]) + Visible(s[1..])
  }

  lemma {:induction false} VisibleConcat(a: string, b: string)
    ensures Visible(a + b) == Visible(a) + Visible(b)
    decreases |a|
  {
    if |a| > 0 {
      var h := if IsSpace(a[0]) || a[0] == Zwnj || a[0] == Zwj then "" else [a[0]];
      assert (a + b)[0] == a[0] && (a + b)[1..] == a[1..] + b;
      assert Visible(a + b) == h + Visible(a[1..] + b);
      assert Visible(a) == h + Visible(a[1..]);
      VisibleConcat(a[1..], b);
      Assoc(h, Visible(a[1..]), Visible(b));
    } else {
      assert a + b == b;
    }
  }

  lemma {:induction false} VisibleOfSpaces(s: string)
    requires forall i :: 0 <= i < |s| ==> IsSpace(s[i])
    ensures Visible(s) == ""
    decreases |s|
  {
    if |s| > 0 {
      VisibleOfSpaces(s[1..]);
    }
  }

  lemma {:induction false} CollapseKeepsVisible(s: string)
    ensures Visible(Collapse(s)) == Visible(s)
    decreases |s|
  {
    if |s| > 0 {
      if IsSpace(s[0]) {
        var k := LeadingSpaces(s);
        var rest := s[k..];
        CollapseKeepsVisible(rest);
        assert s == s[..k] + rest;
        VisibleConcat(s[..k], rest);
        VisibleOfSpaces(s[..k]);
        var t := " " + Collapse(rest);
        assert t[1..] == Collapse(rest);
      } else {
        CollapseKeepsVisible(s[1..]);
        var t := [s[0]] + Collapse(s[1..]);
        assert t[1..] == Collapse(s[1..]);
      }
    }
  }

  lemma StripKeepsVisible(s: string)
    ensures Visible(Strip(s)) == Visible(s)
  {
    var lo := LeadingSpaces(s);
    var hi := TrailingCut(s, lo);
    var head, mid, tail := s[..lo], s[lo..hi], s[hi..];
    SliceThree(s, lo, hi);
    assert forall i :: 0 <= i < |head| ==> IsSpace(head[i]) by {
      forall i | 0 <= i < |head| ensures IsSpace(head[i]) {
        assert head[i] == s[i];
      }
    }
    assert forall i :: 0 <= i < |tail| ==> IsSpace(tail[i]) by {
      forall i | 0 <= i < |tail| ensures IsSpace(tail[i]) {
        assert tail[i] == s[hi + i];
      }
    }
    VisibleBetweenSpaces(head, mid, tail);
  }

  lemma VisibleBetweenSpaces(head: string, mid: string, tail: string)
    requires forall i :: 0 <= i < |head| ==> IsSpace(head[i])
    requires forall i :: 0 <= i < |tail| ==> IsSpace(tail[i])
    ensures Visible(head + mid + tail) == Visible(mid)
  {
    VisibleOfSpaces(head);
    VisibleOfSpaces(tail);
    VisibleConcat(head + mid, tail);
    VisibleConcat(head, mid);
  }

  lemma {:induction false} RemoveZeroWidthKeepsVisible(s: string)
    ensures Visible(RemoveZeroWidth(s)) == Visible(s)
    decreases |s|
  {
    if |s| > 0 {
      RemoveZeroWidthKeepsVisible(s[1..]);
      var head := if s[0] == Zwnj || s[0] == Zwj then "" else [s[0]];
      VisibleConcat(head, RemoveZeroWidth(s[1..]));
    }
  }

  /** Passes 2 and 3 only remove or replace whitespace and zero-width
      characters: the visible text after pass 1 comes through whole and in
      order. */
  lemma NormalizeKeepsVisible(x: string)
    ensures Visible(NormalizeText(x)) == Visible(ApplyCharMap(x))
  {
    if x != "" {
      var t := ApplyCharMap(x);
      CollapseKeepsVisible(t);
      StripKeepsVisible(Collapse(t));
      RemoveZeroWidthKeepsVisible(Squeeze(t));
    }
  }

  /** `Cleaner.clean_article`: `normalize_text` on `title`, `author`,
      `summary` and `content` when present and non-empty. */
  function CleanArticle(a: Article): (r: Article)
    ensures r.date == a.date && r.category == a.category && r.url == a.url
    ensures r.title.Some? <==> a.title.Some?
    ensures r.author.Some? <==> a.author.Some?
    ensures r.summary.Some? <==> a.summary.Some?
    ensures a.title.Some? ==> r.title.value == NormalizeText(a.title.value)
    ensures a.author.Some? ==> r.author.value == NormalizeText(a.author.value)
    ensures a.summary.Some? ==> r.summary.value == NormalizeText(a.summary.value)
    ensures r.content == NormalizeText(a.content)
  {
    a.(title := CleanField(a.title),
       author := CleanField(a.author),
       summary := CleanField(a.summary),
       content := if a.content != "" then NormalizeText(a.content) else a.content)
  }

  /** One field of `clean_article`: rewritten only when truthy. */
  function CleanField(v: Option<string>): (r: Option<string>)
    ensures r.Some? <==> v.Some?
    ensures v.Some? && v.value != "" ==> r == Some(NormalizeText(v.value))
    ensures v == Some("") ==> r == v
  {
    if v.Some? && v.value != "" then Some(NormalizeText(v.value)) else v
  }

  /** Cleaning twice is cleaning once when no text field holds a zero-width
      character. */
  lemma CleanArticleIdempotentWithoutZeroWidth(a: Article)
    requires forall f :: f in TextFields(a) ==> Zwnj !in f && Zwj !in f
    ensures CleanArticle(CleanArticle(a)) == CleanArticle(a)
  {
    forall f | f in TextFields(a) ensures NormalizeText(NormalizeText(f)) == NormalizeText(f) {
      NormalizeIdempotentWithoutZeroWidth(f);
    }
    assert a.content in TextFields(a);
  }

  /** The present text fields `clean_article` looks at. */
  function TextFields(a: Article): set<string> {
    (if a.title.Some? then {a.title.value} else {})
      + (if a.author.Some? then {a.author.value} else {})
      + (if a.summary.Some? then {a.summary.value} else {})
      + {a.content}
  }
}
