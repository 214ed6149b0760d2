/**
 * The check made on every assignment to a student's `name`: the value with
 * its spaces removed must be non-empty and alphabetic (`str.isalpha`), and
 * the value must be title case (`str.istitle`).
 *
 * Letters are abstracted to the cased letters of the Latin and basic
 * Cyrillic alphabets, the scripts the names in this system are written in.
 */
module Names {

  /** An uppercase letter. */
  predicate IsUpper(c: char)
  {
    ('A' <= c <= 'Z') || ('А' <= c <= 'Я') || c == 'Ё'
  }

  /** A lowercase letter. */
  predicate IsLower(c: char)
  {
    ('a' <= c <= 'z') || ('а' <= c <= 'я') || c == 'ё'
  }

  /** A letter: every letter here is cased, upper or lower. */
  predicate IsLetter(c: char)
  {
    IsUpper(c) || IsLower(c)
  }

  /** `s.replace(' ', '')`. */
  function RemoveSpaces(s: string): (r: string)
    ensures ' ' !in r
    ensures forall c :: c != ' ' ==> multiset(r)[c] == multiset(s)[c]
    decreases |s|
  {
    if |s| == 0 then ""
    else
      assert s == [s[0]] + s[1..];
      (if s[0] == ' ' then "" else [s[0]]) + RemoveSpaces(s[1..])
  }

  /** `str.isalpha`: at least one character, and every character a letter. */
  predicate IsAlpha(s: string)
  {
    |s| > 0 && forall i :: 0 <= i < |s| ==> IsLetter(s[i])
  }

  /** The left-to-right scan of `str.istitle`: an uppercase letter may not
      follow a cased character, a lowercase letter must follow one, and at
      least one cased character must occur. */
  function TitleScan(s: string, prevCased: bool, cased: bool): bool
    decreases |s|
  {
    if |s| == 0 then cased
    else if IsUpper(s[0]) then !prevCased && TitleScan(s[1..], true, true)
    else if IsLower(s[0]) then prevCased && TitleScan(s[1..], true, true)
    else TitleScan(s[1..], false, cased)
  }

  /** `str.istitle`. */
  predicate IsTitle(s: string)
  {
    TitleScan(s, false, false)
  }

  /** The guard of the `name` setter. */
  predicate ValidName(v: string)
  {
    IsAlpha(RemoveSpaces(v)) && IsTitle(v)
  }

  /** Position `i` of `v` begins a word. */
  predicate WordStart(v: string, i: int)
    requires 0 <= i < |v|
  {
    i == 0 || v[i - 1] == ' '
  }

  /** A name as a reader would describe it: only letters and spaces, at least
      one letter, and each letter uppercase exactly when it begins a word. */
  predicate WellFormedName(v: string)
  {
    && (exists i :: 0 <= i < |v| && IsLetter(v[i]))
    && (forall i :: 0 <= i < |v| ==> v[i] == ' ' || IsLetter(v[i]))
    && (forall i :: 0 <= i < |v| && IsLetter(v[i]) ==> (IsUpper(v[i]) <==> WordStart(v, i)))
  }

  /** `s.replace(' ', '')` is alphabetic exactly when `s` holds only letters
      and spaces and at least one letter. */
  lemma AlphaWithoutSpaces(s: string)
    ensures IsAlpha(RemoveSpaces(s)) <==>
      (exists i :: 0 <= i < |s| && IsLetter(s[i])) && (forall i :: 0 <= i < |s| ==> s[i] == ' ' || IsLetter(s[i]))
  {
    var r := RemoveSpaces(s);
    forall c | c != ' ' ensures c in r <==> c in s {
      assert multiset(r)[c] == multiset(s)[c];
    }
    if IsAlpha(r) {
      assert r[0] in s;
      forall i | 0 <= i < |s| && s[i] != ' ' ensures IsLetter(s[i]) {
        assert s[i] in r;
      }
    }
    if (exists i :: 0 <= i < |s| && IsLetter(s[i])) && (forall i :: 0 <= i < |s| ==> s[i] == ' ' || IsLetter(s[i])) {
      var i :| 0 <= i < |s| && IsLetter(s[i]);
      assert s[i] in r;
      forall j | 0 <= j < |r| ensures IsLetter(r[j]) {
        assert r[j] in s;
      }
    }
  }

  /** The scan from position `k` onwards, begun in the state the scan of the
      whole string reaches there, accepts exactly when the rest of the string
      has its letters cased by word position. */
  lemma {:induction false} ScanFrom(v: string, k: nat, cased: bool)
    requires k <= |v|
    requires forall i :: 0 <= i < |v| ==> v[i] == ' ' || IsLetter(v[i])
    ensures TitleScan(v[k..], k > 0 && v[k - 1] != ' ', cased) <==>
      && (cased || exists i :: k <= i < |v| && IsLetter(v[i]))
      && (forall i :: k <= i < |v| && IsLetter(v[i]) ==> (IsUpper(v[i]) <==> WordStart(v, i)))
    decreases |v| - k
  {
    if k < |v| {
      assert v[k..][0] == v[k];
      assert v[k..][1..] == v[k + 1..];
      ScanFrom(v, k + 1, cased || IsLetter(v[k]));
    }
  }

  /** The setter's guard accepts exactly the well-formed names. */
  lemma ValidNameIff(v: string)
    ensures ValidName(v) <==> WellFormedName(v)
  {
    AlphaWithoutSpaces(v);
    if forall i :: 0 <= i < |v| ==> v[i] == ' ' || IsLetter(v[i]) {
      ScanFrom(v, 0, false);
      assert v[0..] == v;
    }
  }

  /** An accepted name never contains a line break. */
  lemma ValidNameIsOneLine(v: string)
    requires ValidName(v)
    ensures '\n' !in v
  {
    ValidNameIff(v);
  }
}
