/** The string primitives the game relies on: Python's `str.isspace`,
    `str.strip()`, `str.upper()` (ASCII letters) and `str.split(',')`,
    and the name normalisation `name.strip().upper()` built from them. */
module Text {

  /** Python's `str.isspace` for one character, the set `strip()` removes:
      the ASCII controls TAB..CR and FS..US, SPACE, and the Unicode
      white-space code points U+0085, U+00A0, U+1680, U+2000..U+200A,
      U+2028, U+2029, U+202F, U+205F and U+3000. None of them is the comma
      the reply is split at, nor an ASCII letter. */
  predicate IsSpace(c: char): (b: bool)
    ensures b ==> c != ',' && !('a' <= c <= 'z') && !('A' <= c <= 'Z')
    ensures c == ' ' || c == '\t' || c == '\n' || c == '\r' ==> b
  {
    var n := c as int;
    (9 <= n <= 13) || (28 <= n <= 32) || n == 0x85 || n == 0xA0 || n == 0x1680 ||
    (0x2000 <= n <= 0x200A) || n == 0x2028 || n == 0x2029 || n == 0x202F ||
    n == 0x205F || n == 0x3000
  }

  /** Every character of `s` in positions `lo..hi` is white space. */
  predicate SpaceBetween(s: string, lo: int, hi: int)
    requires 0 <= lo && hi <= |s|
  {
    forall k :: lo <= k < hi ==> IsSpace(s[k])
  }

  predicate AllSpace(s: string)
  {
    SpaceBetween(s, 0, |s|)
  }

  /** No white space at either end: what `strip()` leaves behind. */
  predicate IsStripped(s: string)
  {
    s == [] || (!IsSpace(s[0]) && !IsSpace(s[|s| - 1]))
  }

  /** Number of white-space characters at the front of `s`. */
  function LeadingSpaces(s: string): (n: nat)
    ensures n <= |s|
    ensures SpaceBetween(s, 0, n)
    ensures n < |s| ==> !IsSpace(s[n])
  {
    if s == [] || !IsSpace(s[0]) then 0
    else
      var m := LeadingSpaces(s[1..]);
      assert forall k :: 1 <= k < 1 + m ==> s[k] == s[1..][k - 1];
      1 + m
  }

  /** Number of white-space characters at the back of `s`. */
  function TrailingSpaces(s: string): (n: nat)
    ensures n <= |s|
    ensures SpaceBetween(s, |s| - n, |s|)
    ensures n < |s| ==> !IsSpace(s[|s| - 1 - n])
  {
    if s == [] || !IsSpace(s[|s| - 1]) then 0
    else
      var init := s[..|s| - 1];
      var m := TrailingSpaces(init);
      assert forall k :: |init| - m <= k < |init| ==> s[k] == init[k];
      1 + m
  }

  /** Python's `s.strip()`: `s` with its leading and trailing white space
      removed; empty exactly when `s` is all white space. `StripIsSlice`
      and `StripCharacterized` say which slice of `s` it is. */
  function Strip(s: string): (r: string)
    ensures IsStripped(r)
    ensures r == [] <==> AllSpace(s)
  {
    var lead := LeadingSpaces(s);
    if lead == |s| then []
    else
      var trail := TrailingSpaces(s);
      var r := s[lead..|s| - trail];
      assert r[0] == s[lead] && r[|r| - 1] == s[|s| - 1 - trail];
      r
  }

  /** `Strip(s)` is a slice of `s` with only white space outside it. */
  lemma StripIsSlice(s: string)
    ensures exists i, j :: 0 <= i <= j <= |s| && s[i..j] == Strip(s) && SpaceBetween(s, 0, i) && SpaceBetween(s, j, |s|)
  {
    var lead := LeadingSpaces(s);
    if lead == |s| {
      assert s[lead..lead] == Strip(s);
    } else {
      var trail := TrailingSpaces(s);
      assert s[lead..|s| - trail] == Strip(s);
    }
  }

  /** Any stripped slice of `s` with only white space around it is `Strip(s)`:
      the contract of `Strip` pins its result down completely. */
  lemma StripCharacterized(s: string, i: nat, j: nat)
    requires i <= j <= |s|
    requires IsStripped(s[i..j]) && SpaceBetween(s, 0, i) && SpaceBetween(s, j, |s|)
    ensures Strip(s) == s[i..j]
  {
    if i < j {
      assert s[i..j][0] == s[i] && s[i..j][j - 1 - i] == s[j - 1];
      assert LeadingSpaces(s) == i;
      assert TrailingSpaces(s) == |s| - j;
    }
  }

  /** Stripping twice is stripping once. */
  lemma StripIdempotent(s: string)
    ensures Strip(Strip(s)) == Strip(s)
  {
    var r := Strip(s);
    assert r[0..|r|] == r;
    StripCharacterized(r, 0, |r|);
  }

  /** Whatever `Strip` keeps is part of `s`. */
  lemma StripKeepsOnlyCharactersOf(s: string)
    ensures forall c :: c in Strip(s) ==> c in s
  {
    StripIsSlice(s);
    var i, j :| 0 <= i <= j <= |s| && s[i..j] == Strip(s) && SpaceBetween(s, 0, i) && SpaceBetween(s, j, |s|);
    forall c | c in Strip(s) ensures c in s {
      var k :| 0 <= k < |s[i..j]| && s[i..j][k] == c;
      assert s[i + k] == c;
    }
  }

  predicate IsLower(c: char)
  {
    'a' <= c <= 'z'
  }

  /** `c.upper()` for the ASCII letters; every other character is kept. */
  function UpperChar(c: char): char
  {
    if IsLower(c) then (c as int - 32) as char else c
  }

  predicate HasLower(s: string)
  {
    exists i :: 0 <= i < |s| && IsLower(s[i])
  }

  /** `s.upper()`: each lower-case ASCII letter becomes its capital, every
      other character is kept, and no lower-case letter is left. */
  function Upper(s: string): (r: string)
    ensures |r| == |s|
    ensures forall i :: 0 <= i < |s| && IsLower(s[i]) ==> r[i] as int == s[i] as int - 32
    ensures forall i :: 0 <= i < |s| && !IsLower(s[i]) ==> r[i] == s[i]
    ensures !HasLower(r)
  {
    seq(|s|, i requires 0 <= i < |s| => UpperChar(s[i]))
  }

  lemma UpperCharKeepsSpace(c: char)
    ensures IsSpace(UpperChar(c)) == IsSpace(c)
  {
  }

  /** Upper-casing a slice is slicing the upper-cased string. */
  lemma UpperSlice(s: string, i: nat, j: nat)
    requires i <= j <= |s|
    ensures Upper(s)[i..j] == Upper(s[i..j])
  {
  }

  /** Upper-casing never turns a character into white space or back. */
  lemma UpperSpaceBetween(s: string, lo: nat, hi: nat)
    requires lo <= hi <= |s|
    ensures SpaceBetween(Upper(s), lo, hi) == SpaceBetween(s, lo, hi)
  {
    forall k | lo <= k < hi ensures IsSpace(Upper(s)[k]) == IsSpace(s[k]) {
      UpperCharKeepsSpace(s[k]);
    }
  }

  /** Upper-casing keeps a string stripped. */
  lemma UpperStripped(s: string)
    requires IsStripped(s)
    ensures IsStripped(Upper(s))
  {
    if s != [] {
      UpperCharKeepsSpace(s[0]);
      UpperCharKeepsSpace(s[|s| - 1]);
    }
  }

  /** Upper-casing commutes with `strip()`. */
  lemma StripUpperCommute(s: string)
    ensures Strip(Upper(s)) == Upper(Strip(s))
  {
    var u := Upper(s);
    var r := Strip(s);
    StripIsSlice(s);
    var i, j :| 0 <= i <= j <= |s| && s[i..j] == r && SpaceBetween(s, 0, i) && SpaceBetween(s, j, |s|);
    UpperSpaceBetween(s, 0, i);
    UpperSpaceBetween(s, j, |s|);
    UpperSlice(s, i, j);
    UpperStripped(r);
    StripCharacterized(u, i, j);
  }

  lemma UpperIdempotent(s: string)
    ensures Upper(Upper(s)) == Upper(s)
  {
  }

  /** The join handler's name normalisation, `name.strip().upper()`. */
  function Normalize(name: string): (r: string)
    ensures IsStripped(r) && !HasLower(r)
    ensures r == [] <==> AllSpace(name)
  {
    Upper(Strip(name))
  }

  /** A stored (already normalised) name normalises to itself. */
  lemma NormalizeIdempotent(name: string)
    ensures Normalize(Normalize(name)) == Normalize(name)
  {
    StripUpperCommute(Strip(name));
    StripIdempotent(name);
    UpperIdempotent(Strip(name));
  }

  /** `','.join(pieces)`. */
  function JoinCommas(pieces: seq<string>): string
    requires |pieces| >= 1
  {
    if |pieces| == 1 then pieces[0] else pieces[0] + "," + JoinCommas(pieces[1..])
  }

  /** Python's `s.split(',')`: the comma-free pieces between the commas,
      one more piece than there are commas, which `','.join` glues back into `s`. */
  function Split(s: string): (pieces: seq<string>)
    ensures |pieces| >= 1
    ensures forall p :: p in pieces ==> ',' !in p
    ensures JoinCommas(pieces) == s
  {
    if s == [] then [""]
    else
      var rest := Split(s[1..]);
      if s[0] == ',' then
        assert JoinCommas([""] + rest) == "" + "," + JoinCommas(rest);
        assert s == "," + s[1..];
        [""] + rest
      else
        var pieces := [[s[0]] + rest[0]] + rest[1..];
        assert pieces[1..] == rest[1..];
        assert s == [s[0]] + s[1..];
        pieces
  }

  /** Splitting a comma-free prefix `a` in front of `t` only extends the
      first piece of `t`. */
  lemma {:induction false} SplitPrefix(a: string, t: string)
    requires ',' !in a
    ensures Split(a + t) == [a + Split(t)[0]] + Split(t)[1..]
  {
    if a != [] {
      assert (a + t)[1..] == a[1..] + t;
      assert (a + t)[0] == a[0];
      SplitPrefix(a[1..], t);
      assert [a[0]] + (a[1..] + Split(t)[0]) == a + Split(t)[0];
    } else {
      assert a + t == t;
      assert a + Split(t)[0] == Split(t)[0];
      assert Split(t) == [Split(t)[0]] + Split(t)[1..];
    }
  }

  /** `s.split(',')` undoes `','.join` of comma-free pieces. */
  lemma {:induction false} SplitJoinCommas(pieces: seq<string>)
    requires |pieces| >= 1
    requires forall p :: p in pieces ==> ',' !in p
    ensures Split(JoinCommas(pieces)) == pieces
  {
    if |pieces| == 1 {
      SplitPrefix(pieces[0], "");
      assert pieces[0] + "" == pieces[0];
    } else {
      var tail := JoinCommas(pieces[1..]);
      SplitJoinCommas(pieces[1..]);
      assert pieces[0] + "," + tail == pieces[0] + ("," + tail);
      SplitPrefix(pieces[0], "," + tail);
      assert ("," + tail)[1..] == tail;
      assert pieces[0] + "" == pieces[0];
      assert pieces == [pieces[0]] + pieces[1..];
    }
  }
}
