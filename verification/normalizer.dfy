/**
 `normalize_param`: the key under which flashcard topics are grouped and quiz
 answers are compared. Three stages, in the source's order: compatibility
 decomposition (NFKD), lower-casing, and dropping every character outside
 `[a-z0-9]`.
 */
module Normalizer {
  import opened Text

  const Grave := '\U{0300}'
  const Acute := '\U{0301}'
  const Circumflex := '\U{0302}'
  const Tilde := '\U{0303}'
  const Macron := '\U{0304}'
  const Diaeresis := '\U{0308}'
  const Ring := '\U{030A}'
  const Cedilla := '\U{0327}'
  const FractionSlash := '\U{2044}'

  /**
   The NFKD decomposition of one character, for the Latin-1 Supplement block
   (U+00A0..U+00FF); every other character is taken as its own decomposition.
   Upper- and lower-case accented letters become their base letter followed by
   a combining mark; the compatibility characters (superscript digits, ordinal
   indicators, vulgar fractions, spacing accents) become their plain forms.
   */
  function Decompose(c: char): (d: string)
    ensures c < '\U{A0}' ==> d == [c]
  {
    if c < '\U{A0}' then [c]
    else match c
    case '\U{A0}' => " "
    case '\U{A8}' => [' ', Diaeresis]
    case '\U{AA}' => "a"
    case '\U{AF}' => [' ', Macron]
    case '\U{B2}' => "2"
    case '\U{B3}' => "3"
    case '\U{B4}' => [' ', Acute]
    case '\U{B5}' => "\U{03BC}"
    case '\U{B8}' => [' ', Cedilla]
    case '\U{B9}' => "1"
    case '\U{BA}' => "o"
    case '\U{BC}' => ['1', FractionSlash, '4']
    case '\U{BD}' => ['1', FractionSlash, '2']
    case '\U{BE}' => ['3', FractionSlash, '4']
    case '\U{C0}' => ['A', Grave]
    case '\U{C1}' => ['A', Acute]
    case '\U{C2}' => ['A', Circumflex]
    case '\U{C3}' => ['A', Tilde]
    case '\U{C4}' => ['A', Diaeresis]
    case '\U{C5}' => ['A', Ring]
    case '\U{C7}' => ['C', Cedilla]
    case '\U{C8}' => ['E', Grave]
    case '\U{C9}' => ['E', Acute]
    case '\U{CA}' => ['E', Circumflex]
    case '\U{CB}' => ['E', Diaeresis]
    case '\U{CC}' => ['I', Grave]
    case '\U{CD}' => ['I', Acute]
    case '\U{CE}' => ['I', Circumflex]
    case '\U{CF}' => ['I', Diaeresis]
    case '\U{D1}' => ['N', Tilde]
    case '\U{D2}' => ['O', Grave]
    case '\U{D3}' => ['O', Acute]
    case '\U{D4}' => ['O', Circumflex]
    case '\U{D5}' => ['O', Tilde]
    case '\U{D6}' => ['O', Diaeresis]
    case '\U{D9}' => ['U', Grave]
    case '\U{DA}' => ['U', Acute]
    case '\U{DB}' => ['U', Circumflex]
    case '\U{DC}' => ['U', Diaeresis]
    case '\U{DD}' => ['Y', Acute]
    case '\U{E0}' => ['a', Grave]
    case '\U{E1}' => ['a', Acute]
    case '\U{E2}' => ['a', Circumflex]
    case '\U{E3}' => ['a', Tilde]
    case '\U{E4}' => ['a', Diaeresis]
    case '\U{E5}' => ['a', Ring]
    case '\U{E7}' => ['c', Cedilla]
    case '\U{E8}' => ['e', Grave]
    case '\U{E9}' => ['e', Acute]
    case '\U{EA}' => ['e', Circumflex]
    case '\U{EB}' => ['e', Diaeresis]
    case '\U{EC}' => ['i', Grave]
    case '\U{ED}' => ['i', Acute]
    case '\U{EE}' => ['i', Circumflex]
    case '\U{EF}' => ['i', Diaeresis]
    case '\U{F1}' => ['n', Tilde]
    case '\U{F2}' => ['o', Grave]
    case '\U{F3}' => ['o', Acute]
    case '\U{F4}' => ['o', Circumflex]
    case '\U{F5}' => ['o', Tilde]
    case '\U{F6}' => ['o', Diaeresis]
    case '\U{F9}' => ['u', Grave]
    case '\U{FA}' => ['u', Acute]
    case '\U{FB}' => ['u', Circumflex]
    case '\U{FC}' => ['u', Diaeresis]
    case '\U{FD}' => ['y', Acute]
    case '\U{FF}' => ['y', Diaeresis]
    case _ => [c]
  }

  /** `unicodedata.normalize('NFKD', text)`, one character at a time. */
  function Nfkd(s: string): string
    decreases |s|
  {
    if s == [] then [] else Decompose(s[0]) + Nfkd(s[1..])
  }

  /** The characters a normalised key may contain. */
  predicate IsKeyChar(c: char) { IsLower(c) || IsDigit(c) }

  predicate IsKey(s: string) { forall i :: 0 <= i < |s| ==> IsKeyChar(s[i]) }

  /** `re.sub(r'[^a-z0-9]', '', text)`: the key characters of `s`, in order. */
  function KeepKeyChars(s: string): (r: string)
    ensures IsKey(r)
    ensures |r| <= |s|
    decreases |s|
  {
    if s == [] then []
    else if IsKeyChar(s[0]) then [s[0]] + KeepKeyChars(s[1..])
    else KeepKeyChars(s[1..])
  }

  /** `normalize_param` (bot-1.py:34-38). */
  function Normalize(text: string): (key: string)
    ensures IsKey(key)
  {
    KeepKeyChars(Lower(Nfkd(text)))
  }

  lemma {:induction false} NfkdAppend(a: string, b: string)
    ensures Nfkd(a + b) == Nfkd(a) + Nfkd(b)
    decreases |a|
  {
    if a != [] {
      assert (a + b)[1..] == a[1..] + b;
      NfkdAppend(a[1..], b);
    } else {
      assert a + b == b;
    }
  }

  lemma {:induction false} KeepKeyCharsAppend(a: string, b: string)
    ensures KeepKeyChars(a + b) == KeepKeyChars(a) + KeepKeyChars(b)
    decreases |a|
  {
    if a != [] {
      assert (a + b)[1..] == a[1..] + b;
      KeepKeyCharsAppend(a[1..], b);
    } else {
      assert a + b == b;
    }
  }

  /** Normalisation works character by character: it distributes over concatenation. */
  lemma NormalizeAppend(a: string, b: string)
    ensures Normalize(a + b) == Normalize(a) + Normalize(b)
  {
    NfkdAppend(a, b);
    LowerAppend(Nfkd(a), Nfkd(b));
    KeepKeyCharsAppend(Lower(Nfkd(a)), Lower(Nfkd(b)));
  }

  /** A key is left alone by every stage. */
  lemma {:induction false} KeyIsFixed(k: string)
    requires IsKey(k)
    ensures Nfkd(k) == k && Lower(k) == k && KeepKeyChars(k) == k
    decreases |k|
  {
    if k != [] {
      KeyIsFixed(k[1..]);
      assert Decompose(k[0]) == [k[0]];
      assert k == [k[0]] + k[1..];
    }
  }

  /** Normalising twice gives the same key as normalising once. */
  lemma NormalizeIdempotent(text: string)
    ensures Normalize(Normalize(text)) == Normalize(text)
  {
    KeyIsFixed(Normalize(text));
  }

  /** The key of one ASCII character: its lower-case form if it is a letter or digit, nothing otherwise. */
  lemma NormalizeAsciiChar(c: char)
    requires c < '\U{80}'
    ensures Normalize([c]) == if IsUpper(c) || IsLower(c) || IsDigit(c) then [LowerChar(c)] else []
  {
    assert Decompose(c) == [c];
    assert Nfkd([c]) == [c] + Nfkd([]);
  }

  predicate IsAscii(s: string) { forall i :: 0 <= i < |s| ==> s[i] < '\U{80}' }

  /**
   An independent reading of the key of an ASCII text: keep its letters and
   digits, in order, with letters lower-cased.
   */
  function AsciiKey(s: string): string
    decreases |s|
  {
    if s == [] then []
    else
      var c := s[|s| - 1];
      AsciiKey(s[..|s| - 1]) + (if IsUpper(c) || IsLower(c) || IsDigit(c) then [LowerChar(c)] else [])
  }

  /** On ASCII text, normalising agrees with `AsciiKey`. */
  lemma {:induction false} NormalizeAscii(s: string)
    requires IsAscii(s)
    ensures Normalize(s) == AsciiKey(s)
    decreases |s|
  {
    if s != [] {
      var init, c := s[..|s| - 1], s[|s| - 1];
      assert s == init + [c];
      NormalizeAscii(init);
      NormalizeAppend(init, [c]);
      NormalizeAsciiChar(c);
    }
  }

  /** Changing the case of one letter does not change the key. */
  lemma NormalizeIgnoresCase(a: string, c: char, b: string)
    requires IsLower(c)
    ensures Normalize(a + [UpperChar(c)] + b) == Normalize(a + [c] + b)
  {
    hide Normalize;
    NormalizeAppend(a + [UpperChar(c)], b);
    NormalizeAppend(a, [UpperChar(c)]);
    NormalizeAppend(a + [c], b);
    NormalizeAppend(a, [c]);
    NormalizeAsciiChar(UpperChar(c));
    NormalizeAsciiChar(c);
  }

  /** Inserting an ASCII character that is neither a letter nor a digit does not change the key. */
  lemma NormalizeIgnoresPunctuation(a: string, c: char, b: string)
    requires c < '\U{80}' && !IsUpper(c) && !IsLower(c) && !IsDigit(c)
    ensures Normalize(a + [c] + b) == Normalize(a + b)
  {
    hide Normalize;
    NormalizeAppend(a + [c], b);
    NormalizeAppend(a, [c]);
    NormalizeAppend(a, b);
    NormalizeAsciiChar(c);
  }

  /** A whitespace character has an empty key. */
  lemma NormalizeSpace(c: char)
    requires IsSpace(c)
    ensures Normalize([c]) == []
  {
    if c < '\U{80}' {
      NormalizeAsciiChar(c);
    } else {
      var d := Decompose(c);
      assert d == " " || d == [c] by {
        if c >= '\U{100}' {
          DecomposeBeyondLatin1(c);
        }
      }
      assert Nfkd([c]) == d + Nfkd([]);
      assert Lower(d) == d;
      assert KeepKeyChars(d) == KeepKeyChars(d[1..]);
    }
  }

  /** Outside the Latin-1 block every character is its own decomposition. */
  lemma DecomposeBeyondLatin1(c: char)
    requires c >= '\U{100}'
    ensures Decompose(c) == [c]
  {
  }

  lemma {:induction false} NormalizeTrimStart(s: string)
    ensures Normalize(TrimStart(s)) == Normalize(s)
    decreases |s|
  {
    hide Normalize;
    if s != [] && IsSpace(s[0]) {
      NormalizeTrimStart(s[1..]);
      assert s == [s[0]] + s[1..];
      NormalizeAppend([s[0]], s[1..]);
      NormalizeSpace(s[0]);
    }
  }

  lemma {:induction false} NormalizeTrimEnd(s: string)
    ensures Normalize(TrimEnd(s)) == Normalize(s)
    decreases |s|
  {
    hide Normalize;
    if s != [] && IsSpace(s[|s| - 1]) {
      var init := s[..|s| - 1];
      NormalizeTrimEnd(init);
      assert s == init + [s[|s| - 1]];
      NormalizeAppend(init, [s[|s| - 1]]);
      NormalizeSpace(s[|s| - 1]);
    }
  }

  /** Surrounding whitespace never reaches the key, so `strip()` before normalising changes nothing. */
  lemma NormalizeStrip(s: string)
    ensures Normalize(Strip(s)) == Normalize(s)
  {
    hide Normalize;
    NormalizeTrimStart(s);
    NormalizeTrimEnd(TrimStart(s));
  }

  /** NFKD splits the accent off "Á", and only the base letter survives. */
  lemma NormalizeAccentedA()
    ensures Normalize("\U{C1}") == "a"
  {
    assert Nfkd("\U{C1}") == ['A', Acute] + Nfkd([]);
    assert Lower(['A', Acute]) == ['a', Acute];
    assert KeepKeyChars(['a', Acute]) == ['a'] + KeepKeyChars([Acute]);
  }

  lemma NormalizeMath()
    ensures Normalize("math") == "math"
  {
    KeyIsFixed("math");
  }

  lemma NormalizeCapitalMath()
    ensures Normalize("Math") == "math"
  {
    hide Normalize;
    NormalizeMath();
    assert UpperChar('m') == 'M';
    NormalizeIgnoresCase([], 'm', "ath");
    assert [] + ['M'] + "ath" == "Math";
    assert [] + ['m'] + "ath" == "math";
  }

  lemma NormalizeCapitalTh()
    ensures Normalize("TH") == "th"
  {
    KeyIsFixed("th");
    assert UpperChar('t') == 'T' && UpperChar('h') == 'H';
    NormalizeIgnoresCase("t", 'h', []);
    assert "t" + ['H'] + [] == "tH";
    assert "t" + ['h'] + [] == "th";
    NormalizeIgnoresCase([], 't', "H");
    assert [] + ['T'] + "H" == "TH";
    assert [] + ['t'] + "H" == "tH";
  }

  lemma NormalizeMathBang()
    ensures Normalize("Math!") == "math"
  {
    hide Normalize;
    NormalizeCapitalMath();
    NormalizeIgnoresPunctuation("Math", '!', []);
    assert "Math" + ['!'] + [] == "Math!";
    assert "Math" + [] == "Math";
  }

  lemma NormalizeAccentedMath()
    ensures Normalize("M\U{C1}TH") == "math"
  {
    hide Normalize;
    NormalizeAccentedA();
    NormalizeCapitalTh();
    NormalizeAsciiChar('M');
    var m, a, th := "M", "\U{C1}", "TH";
    assert m + a + th == "M\U{C1}TH";
    NormalizeAppend(m + a, th);
    NormalizeAppend(m, a);
  }

  /** "Math!", "math" and "MÁTH" share the key "math". */
  lemma MathExample()
    ensures Normalize("Math!") == "math"
    ensures Normalize("math") == "math"
    ensures Normalize("M\U{C1}TH") == "math"
  {
    hide Normalize;
    NormalizeMath();
    NormalizeMathBang();
    NormalizeAccentedMath();
  }
}
