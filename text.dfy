/** String handling the task store and the availability parser rely on:
    ASCII lower-casing, whitespace stripping, splitting on a separator,
    joining with one, and reading a decimal integer. */
module Text {

  datatype Option<T> = None | Some(value: T) {
    function GetOr(default: T): T {
      match this
      case Some(v) => v
      case None => default
    }
  }

  /** The two sets of ASCII whitespace Python uses. str.strip() removes
      space, tab, line feed, vertical tab, form feed, carriage return and
      the information separators 0x1C..0x1F (StrBlanks). int() skips only the
      first six (IntBlanks): it hands ASCII text to C's isspace unchanged. */
  datatype Blanks = StrBlanks | IntBlanks

  predicate IsBlank(w: Blanks, c: char) {
    c == ' ' || c == '\t' || c == '\n' || c == '\r' || c == '\U{000B}' || c == '\U{000C}'
    || (w == StrBlanks && '\U{001C}' <= c <= '\U{001F}')
  }

  /** Whitespace to str.strip(). */
  predicate IsSpace(c: char) {
    IsBlank(StrBlanks, c)
  }

  function LowerChar(c: char): char {
    if 'A' <= c <= 'Z' then (c as int + 32) as char else c
  }

  /** str.lower() restricted to ASCII letters. */
  function Lower(s: string): string {
    if s == [] then [] else [LowerChar(s[0])] + Lower(s[1..])
  }

  lemma {:induction false} LowerLength(s: string)
    ensures |Lower(s)| == |s|
    ensures forall i :: 0 <= i < |s| ==> Lower(s)[i] == LowerChar(s[i])
  {
    if s != [] {
      LowerLength(s[1..]);
    }
  }

  /** Lower-casing twice is lower-casing once, so a key that is already
      lower-cased compares the same way as the original. */
  lemma {:induction false} LowerIdempotent(s: string)
    ensures Lower(Lower(s)) == Lower(s)
  {
    if s != [] {
      LowerIdempotent(s[1..]);
      assert Lower(s)[1..] == Lower(s[1..]);
    }
  }

  /** A string without upper-case ASCII letters is its own lower-case form. */
  lemma LowerNoUpper(s: string)
    requires forall i :: 0 <= i < |s| ==> !('A' <= s[i] <= 'Z')
    ensures Lower(s) == s
  {
    LowerLength(s);
  }

  /** A string with no whitespace of set w at either end. */
  predicate Trimmed(s: string, w: Blanks) {
    s == [] || (!IsBlank(w, s[0]) && !IsBlank(w, s[|s| - 1]))
  }

  /** A string with no whitespace at either end, as str.strip() leaves it. */
  predicate Stripped(s: string) {
    Trimmed(s, StrBlanks)
  }

  /** Position of the first character at or after k that is not whitespace of set w. */
  function SkipSpaces(s: string, k: nat, w: Blanks): (i: nat)
    requires k <= |s|
    ensures k <= i <= |s|
    ensures forall x :: k <= x < i ==> IsBlank(w, s[x])
    ensures i == |s| || !IsBlank(w, s[i])
    decreases |s| - k
  {
    if k == |s| || !IsBlank(w, s[k]) then k else SkipSpaces(s, k + 1, w)
  }

  /** End of the text before the whitespace of set w that precedes position k. */
  function BackSpaces(s: string, k: nat, w: Blanks): (j: nat)
    requires k <= |s|
    ensures j <= k
    ensures forall x :: j <= x < k ==> IsBlank(w, s[x])
    ensures j == 0 || !IsBlank(w, s[j - 1])
  {
    if k == 0 || !IsBlank(w, s[k - 1]) then k else BackSpaces(s, k - 1, w)
  }

  /** The infix left after removing the leading and trailing whitespace of
      set w; empty when s is all such whitespace. */
  function Trim(s: string, w: Blanks): (r: string)
    ensures Trimmed(r, w)
    ensures r == [] ==> forall x :: 0 <= x < |s| ==> IsBlank(w, s[x])
    ensures r != [] ==>
              exists i, j :: 0 <= i < j <= |s| && r == s[i..j] &&
                (forall x :: 0 <= x < i ==> IsBlank(w, s[x])) && (forall x :: j <= x < |s| ==> IsBlank(w, s[x]))
  {
    var i := SkipSpaces(s, 0, w);
    var j := BackSpaces(s, |s|, w);
    if i < j then s[i..j] else []
  }

  /** str.strip(): Trim with the whitespace str.strip() removes. */
  function Strip(s: string): string {
    Trim(s, StrBlanks)
  }

  /** Trimming a string that has no surrounding whitespace changes nothing. */
  lemma TrimTrimmed(s: string, w: Blanks)
    requires Trimmed(s, w)
    ensures Trim(s, w) == s
  {
    if s != [] {
      assert SkipSpaces(s, 0, w) == 0;
      assert BackSpaces(s, |s|, w) == |s|;
    }
  }

  /** Stripping a string that has no surrounding whitespace changes nothing,
      and neither does int()'s own skipping of its narrower set. */
  lemma StripStripped(s: string)
    requires Stripped(s)
    ensures Strip(s) == s
    ensures Trim(s, IntBlanks) == s
  {
    TrimTrimmed(s, StrBlanks);
    TrimTrimmed(s, IntBlanks);
  }

  /** Stripping twice is stripping once. */
  lemma StripTwice(s: string)
    ensures Strip(Strip(s)) == Strip(s)
  {
    StripStripped(Strip(s));
  }

  /** SkipSpaces stops at the first character after k that is not whitespace. */
  lemma {:induction false} SkipTo(s: string, k: nat, i: nat, w: Blanks)
    requires k <= i <= |s|
    requires forall x :: k <= x < i ==> IsBlank(w, s[x])
    requires i == |s| || !IsBlank(w, s[i])
    ensures SkipSpaces(s, k, w) == i
    decreases i - k
  {
    if k < i {
      SkipTo(s, k + 1, i, w);
    }
  }

  /** BackSpaces stops at the last character before k that is not whitespace. */
  lemma {:induction false} BackTo(s: string, k: nat, j: nat, w: Blanks)
    requires j <= k <= |s|
    requires forall x :: j <= x < k ==> IsBlank(w, s[x])
    requires j == 0 || !IsBlank(w, s[j - 1])
    ensures BackSpaces(s, k, w) == j
    decreases k - j
  {
    if j < k {
      BackTo(s, k - 1, j, w);
    }
  }

  /** The information separators 0x1C..0x1F are whitespace to str.strip()
      but not to int(): "12\x1c".strip() is "12", while int("12\x1c") is a
      ValueError. */
  lemma SeparatorsOnlyStripped()
    ensures Strip("\U{001F}9") == "9"
    ensures Strip("12\U{001C}") == "12"
    ensures ParseInt("12\U{001C}") == None
  {
    assert SkipSpaces("\U{001F}9", 0, StrBlanks) == 1;
    assert BackSpaces("12\U{001C}", 3, StrBlanks) == 2;
    assert SkipSpaces("12\U{001C}", 0, IntBlanks) == 0;
    assert BackSpaces("12\U{001C}", 3, IntBlanks) == 3;
    assert Trim("12\U{001C}", IntBlanks) == "12\U{001C}";
    assert !IsDigit("12\U{001C}"[2]);
  }

  /** First position of c in s. */
  function IndexOf(s: string, c: char): (r: nat)
    requires c in s
    ensures r < |s| && s[r] == c && c !in s[..r]
  {
    if s[0] == c then 0 else 1 + IndexOf(s[1..], c)
  }

  /** sep.join(parts). */
  function Join(parts: seq<string>, sep: char): string {
    if |parts| == 0 then ""
    else if |parts| == 1 then parts[0]
    else parts[0] + [sep] + Join(parts[1..], sep)
  }

  /** s.split(sep): the maximal separator-free pieces, in order. */
  function Split(s: string, sep: char): (r: seq<string>)
    ensures |r| >= 1
    ensures forall k :: 0 <= k < |r| ==> sep !in r[k]
    ensures Join(r, sep) == s
    decreases |s|
  {
    if sep !in s then [s]
    else
      var i := IndexOf(s, sep);
      var rest := Split(s[i + 1..], sep);
      assert s == s[..i] + [sep] + s[i + 1..];
      [s[..i]] + rest
  }

  /** Splitting what was joined gives the parts back, provided no part
      contains the separator. */
  lemma {:induction false} SplitJoin(parts: seq<string>, sep: char)
    requires |parts| >= 1
    requires forall k :: 0 <= k < |parts| ==> sep !in parts[k]
    ensures Split(Join(parts, sep), sep) == parts
  {
    if |parts| > 1 {
      var s := Join(parts, sep);
      assert s == parts[0] + [sep] + Join(parts[1..], sep);
      assert s[|parts[0]|] == sep;
      assert s[..|parts[0]|] == parts[0];
      assert sep in s;
      assert IndexOf(s, sep) == |parts[0]|;
      assert s[|parts[0]| + 1..] == Join(parts[1..], sep);
      SplitJoin(parts[1..], sep);
    }
  }

  /** The pieces kept by `[p.strip() for p in pieces if p.strip()]`. */
  function CleanPieces(pieces: seq<string>): (r: seq<string>)
    ensures |r| <= |pieces|
    ensures forall k :: 0 <= k < |r| ==> r[k] != [] && Stripped(r[k])
  {
    if pieces == [] then []
    else
      var t := Strip(pieces[0]);
      (if t == [] then [] else [t]) + CleanPieces(pieces[1..])
  }

  /** A name that survives being written to and read back from a
      comma-separated field. */
  predicate FieldSafe(s: string) {
    s != [] && Stripped(s) && ',' !in s
  }

  /** The non-empty, stripped, comma-separated fields of s. */
  function Fields(s: string): (r: seq<string>)
    ensures forall k :: 0 <= k < |r| ==> FieldSafe(r[k])
  {
    var pieces := Split(s, ',');
    var r := CleanPieces(pieces);
    assert forall k :: 0 <= k < |r| ==> ',' !in r[k] by {
      CleanPiecesFrom(pieces);
    }
    r
  }

  /** Every field kept by CleanPieces comes from a piece, so it holds no
      character the pieces do not hold. */
  lemma {:induction false} CleanPiecesFrom(pieces: seq<string>)
    requires forall k :: 0 <= k < |pieces| ==> ',' !in pieces[k]
    ensures forall k :: 0 <= k < |CleanPieces(pieces)| ==> ',' !in CleanPieces(pieces)[k]
  {
    if pieces != [] {
      CleanPiecesFrom(pieces[1..]);
      StripKeeps(pieces[0], ',');
      var t := Strip(pieces[0]);
      var r := CleanPieces(pieces);
      assert r == (if t == [] then [] else [t]) + CleanPieces(pieces[1..]);
    }
  }

  /** Stripping only removes characters. */
  lemma StripKeeps(p: string, c: char)
    requires c !in p
    ensures c !in Strip(p)
  {
    var t := Strip(p);
    if t != [] {
      var i, j :| 0 <= i < j <= |p| && t == p[i..j];
      assert forall x :: 0 <= x < |t| ==> t[x] == p[i + x];
    }
  }

  lemma {:induction false} CleanPiecesKeep(pieces: seq<string>)
    requires forall k :: 0 <= k < |pieces| ==> FieldSafe(pieces[k])
    ensures CleanPieces(pieces) == pieces
  {
    if pieces != [] {
      StripStripped(pieces[0]);
      CleanPiecesKeep(pieces[1..]);
    }
  }

  /** Reading back what Join wrote gives the same list, for names that are
      non-empty, comma-free and have no surrounding whitespace. */
  lemma FieldsJoin(names: seq<string>)
    requires forall k :: 0 <= k < |names| ==> FieldSafe(names[k])
    ensures Fields(Join(names, ',')) == names
  {
    if names == [] {
      assert Split("", ',') == [""];
      assert Strip("") == "";
    } else {
      SplitJoin(names, ',');
      CleanPiecesKeep(names);
    }
  }

  /** Fields is a normal form: writing its result and reading it back again
      gives the same list. */
  lemma FieldsNormal(s: string)
    ensures Fields(Join(Fields(s), ',')) == Fields(s)
  {
    FieldsJoin(Fields(s));
  }

  predicate IsDigit(c: char) {
    '0' <= c <= '9'
  }

  predicate AllDigits(s: string) {
    forall i :: 0 <= i < |s| ==> IsDigit(s[i])
  }

  /** The value of a string of decimal digits, most significant first. */
  function DigitsValue(s: string): nat
    requires AllDigits(s)
  {
    if s == [] then 0 else DigitsValue(s[..|s| - 1]) * 10 + (s[|s| - 1] as int - '0' as int)
  }

  /** int(s) for decimal text: surrounding whitespace (the IntBlanks set),
      an optional sign and at least one digit; anything else is a ValueError,
      here None. */
  function ParseInt(s: string): (r: Option<int>)
    ensures r.Some? <==>
      var t := Trim(s, IntBlanks);
      t != [] &&
      (if t[0] == '+' || t[0] == '-' then |t| > 1 && AllDigits(t[1..]) else AllDigits(t))
  {
    var t := Trim(s, IntBlanks);
    if t == [] then None
    else if t[0] == '+' || t[0] == '-' then
      var ds := t[1..];
      if ds != [] && AllDigits(ds) then
        var m: int := DigitsValue(ds);
        var v: int := if t[0] == '-' then -m else m;
        Some(v)
      else None
    else if AllDigits(t) then Some(DigitsValue(t))
    else None
  }

  /** Text int() accepts reads the same after str.strip(): the sign and
      digits int() reads are not whitespace to strip either, and strip
      removes at least what int() skips. (The converse fails: strip also
      removes 0x1C..0x1F, see SeparatorsOnlyStripped.) */
  lemma ParseIntStrip(s: string)
    ensures ParseInt(s).Some? ==> ParseInt(Strip(s)) == ParseInt(s)
  {
    if ParseInt(s).Some? {
      var t := Trim(s, IntBlanks);
      ParsedEnds(s);
      StripOfTrim(s);
      StripStripped(t);
      SameTrimSameInt(Strip(s), s);
    }
  }

  /** Text int() accepts starts with a sign or digit and ends with a digit. */
  lemma ParsedEnds(s: string)
    requires ParseInt(s).Some?
    ensures var t := Trim(s, IntBlanks); t != [] && !IsSpace(t[0]) && !IsSpace(t[|t| - 1])
  {
    var t := Trim(s, IntBlanks);
    assert IsDigit(t[|t| - 1]);
  }

  /** When what int() would read has no strip-whitespace at its ends, strip
      cuts exactly there. */
  lemma StripOfTrim(s: string)
    requires var t := Trim(s, IntBlanks); t != [] && !IsSpace(t[0]) && !IsSpace(t[|t| - 1])
    ensures Strip(s) == Trim(s, IntBlanks)
  {
    var t := Trim(s, IntBlanks);
    var i, j :| 0 <= i < j <= |s| && t == s[i..j] &&
      (forall x :: 0 <= x < i ==> IsBlank(IntBlanks, s[x])) && (forall x :: j <= x < |s| ==> IsBlank(IntBlanks, s[x]));
    assert t[0] == s[i] && t[|t| - 1] == s[j - 1];
    SkipAndBack(s, i, j);
  }

  /** int() reads only what is left after skipping its whitespace. */
  lemma SameTrimSameInt(a: string, b: string)
    requires Trim(a, IntBlanks) == Trim(b, IntBlanks)
    ensures ParseInt(a) == ParseInt(b)
  {
  }

  /** Strip of s is its infix i..j when i..j starts and ends with characters
      strip keeps and everything outside is whitespace to int(). */
  lemma SkipAndBack(s: string, i: nat, j: nat)
    requires 0 <= i < j <= |s|
    requires forall x :: 0 <= x < i ==> IsBlank(IntBlanks, s[x])
    requires forall x :: j <= x < |s| ==> IsBlank(IntBlanks, s[x])
    requires !IsSpace(s[i]) && !IsSpace(s[j - 1])
    ensures Strip(s) == s[i..j]
  {
    SkipTo(s, 0, i, StrBlanks);
    BackTo(s, |s|, j, StrBlanks);
  }

  /** Decimal text of a natural number, most significant digit first. */
  function ShowNat(n: nat): (r: string)
    ensures r != [] && AllDigits(r)
  {
    if n < 10 then [('0' as int + n) as char]
    else ShowNat(n / 10) + [('0' as int + n % 10) as char]
  }

  /** Decimal text of an integer, with a leading '-' when negative. */
  function ShowInt(n: int): string {
    if n < 0 then "-" + ShowNat(-n) else ShowNat(n)
  }

  lemma {:induction false} DigitsOfShowNat(n: nat)
    ensures DigitsValue(ShowNat(n)) == n
  {
    var s := ShowNat(n);
    if n >= 10 {
      DigitsOfShowNat(n / 10);
      assert s[..|s| - 1] == ShowNat(n / 10);
    }
  }

  /** Decimal text has no surrounding whitespace: it starts with '-' or a
      digit and ends in a digit. */
  lemma ShowIntTrimmed(n: int, w: Blanks)
    ensures Trim(ShowInt(n), w) == ShowInt(n)
  {
    var s := ShowInt(n);
    var d := ShowNat(if n < 0 then -n else n);
    assert s[|s| - 1] == d[|d| - 1];
    assert IsDigit(d[|d| - 1]) && IsDigit(d[0]);
    TrimTrimmed(s, w);
  }

  /** int() reads back every integer written in decimal. */
  lemma ParseShowInt(n: int)
    ensures ParseInt(ShowInt(n)) == Some(n)
  {
    var s := ShowInt(n);
    ShowIntTrimmed(n, IntBlanks);
    if n < 0 {
      DigitsOfShowNat(-n);
      assert s[0] == '-' && s[1..] == ShowNat(-n);
      SignedValue(s);
    } else {
      DigitsOfShowNat(n);
      assert IsDigit(s[0]);
      UnsignedValue(s);
    }
  }

  /** int() of a trimmed '-' followed by digits. */
  lemma SignedValue(s: string)
    requires Trim(s, IntBlanks) == s && |s| > 1 && s[0] == '-' && AllDigits(s[1..])
    ensures ParseInt(s) == Some(-(DigitsValue(s[1..]) as int))
  {
  }

  /** int() of trimmed digits. */
  lemma UnsignedValue(s: string)
    requires Trim(s, IntBlanks) == s && s != [] && AllDigits(s)
    ensures ParseInt(s) == Some(DigitsValue(s))
  {
    assert IsDigit(s[0]);
  }
}
