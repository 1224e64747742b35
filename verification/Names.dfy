/** File names and their eleven-byte directory form: name_to_83 and format_83_name of
    kernel/drivers/fs/fat32.c. */
module Names {
  import opened Words

  const SPACE: byte := 0x20
  const DOT: byte := 0x2E

  /** A C string without its terminator. */
  type CString = s: seq<byte> | 0 !in s witness []
  type Name83 = n: seq<byte> | |n| == 11 witness seq(11, i => 0x20)

  /** toupper, on the bytes of a name. */
  function ToUpper(c: byte): (r: byte)
    ensures r == 0 <==> c == 0
    ensures r == SPACE <==> c == SPACE
    ensures r == DOT <==> c == DOT
  {
    if 0x61 <= c <= 0x7A then c - 0x20 else c
  }

  function Upper(s: seq<byte>): (r: seq<byte>)
    ensures |r| == |s| && forall i | 0 <= i < |s| :: r[i] == ToUpper(s[i])
  {
    seq<byte>(|s|, i requires 0 <= i < |s| => ToUpper(s[i]))
  }

  // ----- what the two forms mean -----

  /** The length of the part before the first c. */
  function Before(s: seq<byte>, c: byte): (i: nat)
    ensures i <= |s| && c !in s[..i] && (i < |s| ==> s[i] == c)
  {
    if s == [] || s[0] == c then 0
    else
      var i := Before(s[1..], c) + 1;
      assert s[..i] == [s[0]] + s[1..][..i - 1];
      i
  }

  function Base(s: seq<byte>): seq<byte> { s[..Before(s, DOT)] }

  /** What follows the first dot, if anything. */
  function Extension(s: seq<byte>): seq<byte> {
    var i := Before(s, DOT);
    if i < |s| then s[i + 1..] else []
  }

  /** A field of a directory entry: upper case, cut to its width, filled with spaces. */
  function Field(s: seq<byte>, width: nat): (r: seq<byte>)
    ensures |r| == width
  {
    seq<byte>(width, i requires 0 <= i < width => if i < |s| then ToUpper(s[i]) else SPACE)
  }

  function To83(s: CString): Name83 {
    Field(Base(s), 8) + Field(Extension(s), 3)
  }

  /** A field up to its first space. */
  function Trim(f: seq<byte>): seq<byte> { f[..Before(f, SPACE)] }

  function Format(n: Name83): (s: seq<byte>)
    ensures |s| <= 12
  {
    Trim(n[..8]) + if n[8] == SPACE then [] else [DOT] + Trim(n[8..])
  }

  /** Byte by byte, for a path with its first dot, if any, at index `dot`: the bytes before the dot and
      after it, with 0x20 less for 0x61 to 0x7A and nothing else changed, and spaces behind them. */
  lemma To83Bytes(path: CString, dot: nat)
    requires dot <= |path| && 0x2E !in path[..dot] && (dot < |path| ==> path[dot] == 0x2E)
    ensures forall i | 0 <= i < 8 ::
      To83(path)[i] == if i < dot then (if 0x61 <= path[i] <= 0x7A then path[i] - 0x20 else path[i]) else 0x20
    ensures forall i | 8 <= i < 11 ::
      var k := dot + 1 + (i - 8);
      To83(path)[i] == if k < |path| then (if 0x61 <= path[k] <= 0x7A then path[k] - 0x20 else path[k]) else 0x20
  {
    BeforeIs(path, DOT, dot);
  }

  /** Paths that differ in the case of ASCII letters only have the same directory name. */
  lemma CaseIsIgnored(a: CString, b: CString)
    requires |a| == |b|
    requires forall i | 0 <= i < |a| ::
      a[i] == b[i] || (0x61 <= a[i] <= 0x7A && b[i] == a[i] - 0x20) || (0x61 <= b[i] <= 0x7A && a[i] == b[i] - 0x20)
    ensures To83(a) == To83(b)
  {
    var dot := Before(a, DOT);
    SameDot(a, b);
    UpperAlike(a, b);
    hide ToUpper, Before, Field;
    FieldCase(a[..dot], b[..dot], 8);
    if dot < |a| { FieldCase(a[dot + 1..], b[dot + 1..], 3); }
  }

  lemma SameDot(a: seq<byte>, b: seq<byte>)
    requires |a| == |b|
    requires forall i | 0 <= i < |a| ::
      a[i] == b[i] || (0x61 <= a[i] <= 0x7A && b[i] == a[i] - 0x20) || (0x61 <= b[i] <= 0x7A && a[i] == b[i] - 0x20)
    ensures Before(a, DOT) == Before(b, DOT)
  {
    var dot := Before(a, DOT);
    assert forall i | 0 <= i < |a| :: a[i] == 0x2E <==> b[i] == 0x2E;
    hide Before;
    forall i | 0 <= i < dot ensures b[..dot][i] != 0x2E { assert a[..dot][i] != 0x2E; }
    BeforeIs(b, DOT, dot);
  }

  lemma UpperAlike(a: seq<byte>, b: seq<byte>)
    requires |a| == |b|
    requires forall i | 0 <= i < |a| ::
      a[i] == b[i] || (0x61 <= a[i] <= 0x7A && b[i] == a[i] - 0x20) || (0x61 <= b[i] <= 0x7A && a[i] == b[i] - 0x20)
    ensures forall i | 0 <= i < |a| :: ToUpper(a[i]) == ToUpper(b[i])
  {
  }

  lemma FieldCase(s: seq<byte>, t: seq<byte>, width: nat)
    requires |s| == |t| && forall i | 0 <= i < |s| :: ToUpper(s[i]) == ToUpper(t[i])
    ensures Field(s, width) == Field(t, width)
  {
    hide ToUpper;
  }

  // ----- the driver's loops -----

  /** strchr(name, '.'), as an index. */
  method FindDot(name: CString) returns (i: nat)
    ensures i == Before(name, DOT)
  {
    i := 0;
    while i < |name| && name[i] != DOT
      invariant i <= |name| && DOT !in name[..i]
    {
      i := i + 1;
    }
    BeforeIs(name, DOT, i);
  }

  lemma BeforeIs(s: seq<byte>, c: byte, i: nat)
    requires i <= |s| && c !in s[..i] && (i < |s| ==> s[i] == c)
    ensures Before(s, c) == i
  {
    var j := Before(s, c);
    forall k | 0 <= k < i ensures s[k] != c { assert s[..i][k] != c; }
    forall k | 0 <= k < j ensures s[k] != c { assert s[..j][k] != c; }
  }

  /** Copy up to `width` upper-cased bytes of s to name83[at..]. */
  method CopyField(s: seq<byte>, name83: array<byte>, at: nat, width: nat)
    requires at + width <= name83.Length
    requires forall i | at <= i < at + width :: name83[i] == SPACE
    modifies name83
    ensures name83[at..at + width] == Field(s, width)
    ensures forall i | 0 <= i < name83.Length && !(at <= i < at + width) :: name83[i] == old(name83[i])
  {
    var len := if |s| > width then width else |s|;
    for i := 0 to len
      invariant forall j | 0 <= j < i :: name83[at + j] == ToUpper(s[j])
      invariant forall j | at + i <= j < at + width :: name83[j] == SPACE
      invariant forall j | 0 <= j < name83.Length && !(at <= j < at + width) :: name83[j] == old(name83[j])
    {
      name83[at + i] := ToUpper(s[i]);
    }
    assert forall j | at <= j < at + width :: name83[j] == Field(s, width)[j - at];
  }

  /** name_to_83. */
  method NameTo83(name: CString, name83: array<byte>)
    requires name83.Length == 11
    modifies name83
    ensures name83[..] == To83(name)
  {
    for i := 0 to 11
      invariant forall j | 0 <= j < i :: name83[j] == SPACE
    {
      name83[i] := SPACE;
    }
    var dot := FindDot(name);
    if dot == |name| {
      CopyField(name, name83, 0, 8);
      assert Base(name) == name;
      assert name83[8..11] == Field([], 3);
    } else {
      CopyField(name[..dot], name83, 0, 8);
      CopyField(name[dot + 1..], name83, 8, 3);
    }
    assert name83[..] == name83[0..8] + name83[8..11];
  }

  /** Copy bytes of field up to its first space. */
  method CopyTrimmed(field: seq<byte>, name: array<byte>, at: nat) returns (i: nat)
    requires at + |field| <= name.Length
    modifies name
    ensures i == at + |Trim(field)| && name[..i] == old(name[..at]) + Trim(field)
    ensures forall k | i <= k < name.Length :: name[k] == old(name[k])
  {
    var j := 0;
    while j < |field| && field[j] != SPACE
      invariant j <= |field| && SPACE !in field[..j]
      invariant name[..at + j] == old(name[..at]) + field[..j]
      invariant forall k | at + j <= k < name.Length :: name[k] == old(name[k])
    {
      name[at + j] := field[j];
      assert name[..at + j + 1] == name[..at + j] + [field[j]];
      assert field[..j + 1] == field[..j] + [field[j]];
      j := j + 1;
    }
    BeforeIs(field, SPACE, j);
    i := at + j;
  }

  /** format_83_name: the name, then a terminator. */
  method Format83Name(name83: Name83, name: array<byte>)
    requires name.Length >= 13
    modifies name
    ensures name[..|Format(name83)|] == Format(name83) && name[|Format(name83)|] == 0
    ensures forall k | |Format(name83)| < k < name.Length :: name[k] == old(name[k])
  {
    var i := CopyTrimmed(name83[..8], name, 0);
    if name83[8] != SPACE {
      name[i] := DOT;
      ghost var before := name[..i + 1];
      assert before == Trim(name83[..8]) + [DOT];
      i := CopyTrimmed(name83[8..], name, i + 1);
    }
    assert name[..i] == Format(name83);
    name[i] := 0;
    assert name[..i] == Format(name83);
  }

  // ----- the canonical form -----

  /** Nothing but spaces follows a space. */
  predicate SpacesTrail(f: seq<byte>) {
    forall i, j | 0 <= i < j < |f| && f[i] == SPACE :: f[j] == SPACE
  }

  predicate UpperCase(f: seq<byte>) {
    forall i | 0 <= i < |f| :: ToUpper(f[i]) == f[i]
  }

  /** The names that name_to_83 gives for names it can give back. */
  predicate Canonical(n: Name83) {
    UpperCase(n) && DOT !in n[..8] && SpacesTrail(n[..8]) && SpacesTrail(n[8..])
  }

  /** Filling up what was trimmed restores a field exactly when it was upper case and its spaces
      were at its end. */
  lemma TrimThenField(f: seq<byte>)
    ensures Field(Trim(f), |f|) == f <==> UpperCase(f) && SpacesTrail(f)
  {
    var k := Before(f, SPACE);
    var g := Field(Trim(f), |f|);
    if UpperCase(f) && SpacesTrail(f) {
      assert forall j | 0 <= j < |f| :: g[j] == f[j];
    }
    assert forall j | 0 <= j < k :: f[..k][j] != SPACE && g[j] == ToUpper(f[j]);
    if g == f {
      forall j | 0 <= j < |f| ensures ToUpper(f[j]) == f[j] {
        assert g[j] == f[j];
      }
      forall i, j | 0 <= i < j < |f| && f[i] == SPACE ensures f[j] == SPACE {
        assert g[i] == f[i] && g[j] == f[j];
      }
    }
  }

  /** Putting a dot after a base without one splits there again. */
  lemma SplitAtDot(base: seq<byte>, ext: seq<byte>)
    requires DOT !in base
    ensures Base(base + [DOT] + ext) == base && Extension(base + [DOT] + ext) == ext
    ensures Base(base) == base && Extension(base) == []
  {
    var s := base + [DOT] + ext;
    assert s[..|base|] == base && s[|base|] == DOT;
    BeforeIs(s, DOT, |base|);
    assert base[..|base|] == base;
    BeforeIs(base, DOT, |base|);
    assert s[|base| + 1..] == ext;
  }

  lemma Halves(s: CString)
    ensures To83(s)[..8] == Field(Base(s), 8) && To83(s)[8..] == Field(Extension(s), 3)
    ensures To83(s)[8] == Field(Extension(s), 3)[0]
  {
  }

  lemma FormatSplits(n: Name83)
    requires DOT !in n[..8]
    ensures Base(Format(n)) == Trim(n[..8]) && Extension(Format(n)) == Trim(n[8..])
  {
    hide Trim;
    TrimSubset(n[..8]);
    BlankField(n[8..]);
    assert n[8..][0] == n[8];
    hide Base, Extension;
    SplitAtDot(Trim(n[..8]), Trim(n[8..]));
    assert Trim(n[..8]) + [] == Trim(n[..8]);
    assert Trim(n[..8]) + ([DOT] + Trim(n[8..])) == Trim(n[..8]) + [DOT] + Trim(n[8..]);
  }

  lemma FormatIsCString(n: Name83)
    requires 0 !in n
    ensures 0 !in Format(n)
  {
  }

  lemma CanonicalHalves(n: Name83)
    ensures Canonical(n) <==>
      DOT !in n[..8] && UpperCase(n[..8]) && SpacesTrail(n[..8]) && UpperCase(n[8..]) && SpacesTrail(n[8..])
  {
    assert forall i | 8 <= i < 11 :: n[i] == n[8..][i - 8];
    assert forall i | 0 <= i < 3 :: n[8..][i] == n[8 + i];
  }

  /** What C reads of a byte string: everything up to the first zero. */
  function Terminated(s: seq<byte>): CString { s[..Before(s, 0)] }

  /** format_83_name then name_to_83 gives a directory name back exactly when it is canonical and has
      no zero byte. */
  lemma FormatRoundTrip(n: Name83)
    ensures To83(Terminated(Format(n))) == n <==> 0 !in n && Canonical(n)
  {
    hide To83, Format, Canonical, Before;
    NoZeroByte(Terminated(Format(n)));
    if 0 !in n {
      FormatThenConvert(n);
      BeforeIs(Format(n), 0, |Format(n)|);
      assert Terminated(Format(n)) == Format(n);
    }
  }

  lemma NoZeroByte(s: CString)
    ensures 0 !in To83(s)
  {
    assert forall c: byte | c != 0 :: ToUpper(c) != 0;
    hide Before;
  }

  lemma FormatThenConvert(n: Name83)
    requires 0 !in n
    ensures 0 !in Format(n)
    ensures To83(Format(n)) == n <==> Canonical(n)
  {
    hide Trim, Field, Before, Format, To83, Base, Extension, Canonical, UpperCase, SpacesTrail;
    FormatIsCString(n);
    CanonicalHalves(n);
    TrimThenField(n[..8]);
    TrimThenField(n[8..]);
    var r := To83(Format(n));
    Halves(Format(n));
    assert r == r[..8] + r[8..] && n == n[..8] + n[8..];
    NoDotInBase(Format(n));
    if DOT !in n[..8] { FormatSplits(n); }
  }

  lemma TrimSubset(f: seq<byte>)
    ensures DOT !in f ==> DOT !in Trim(f)
  {
  }

  lemma NoDotInBase(s: seq<byte>)
    ensures DOT !in Field(Base(s), 8)
  {
  }

  lemma BlankField(e: seq<byte>)
    requires |e| == 3
    ensures e[0] == SPACE ==> Trim(e) == []
  {
  }

  /** The directory name of a space-free string is canonical, so it survives the trip through its
      printed form. */
  lemma SpaceFreeIsCanonical(s: CString)
    requires SPACE !in s
    ensures 0 !in To83(s) && Canonical(To83(s))
    ensures 0 !in Format(To83(s)) && To83(Format(To83(s))) == To83(s)
  {
    hide Field, Format, To83, Base, Extension, Canonical, UpperCase, SpacesTrail;
    Halves(s);
    var n := To83(s);
    NoDotInBase(s);
    PartsSpaceFree(s);
    FieldCanonical(Base(s), 8);
    FieldCanonical(Extension(s), 3);
    assert n == n[..8] + n[8..];
    CanonicalHalves(n);
    FormatThenConvert(n);
  }

  lemma PartsSpaceFree(s: CString)
    requires SPACE !in s
    ensures 0 !in Base(s) && SPACE !in Base(s) && 0 !in Extension(s) && SPACE !in Extension(s)
  {
  }

  lemma FieldCanonical(s: seq<byte>, width: nat)
    requires 0 !in s && SPACE !in s
    ensures 0 !in Field(s, width) && UpperCase(Field(s, width)) && SpacesTrail(Field(s, width))
  {
    var f := Field(s, width);
    assert forall i | 0 <= i < width :: f[i] == SPACE <==> i >= |s|;
  }

  /** A space in the middle is what breaks it: "A B" comes back as "A". */
  lemma InnerSpaceIsLost()
    ensures var s: CString := [0x41, 0x20, 0x42]; To83(Format(To83(s))) != To83(s)
  {
    var s: CString := [0x41, 0x20, 0x42];
    var n := To83(s);
    SpaceCuts(s, n);
    assert n[2] == 0x42;
    assert !SpacesTrail(n[..8]) by { assert n[..8][1] == SPACE && n[..8][2] == 0x42; }
    FormatThenConvert(n);
  }

  lemma SpaceCuts(s: CString, n: Name83)
    requires s == [0x41, 0x20, 0x42] && n == To83(s)
    ensures n[0] == 0x41 && n[1] == SPACE && n[2] == 0x42 && 0 !in n
  {
    assert DOT !in s[..3];
    BeforeIs(s, DOT, 3);
    assert Base(s) == s;
  }

  /** Formatting a converted short name gives the name in upper case. */
  lemma ShortNameRoundTrip(base: CString, ext: CString)
    requires 1 <= |base| <= 8 && |ext| <= 3 && DOT !in base && SPACE !in base && SPACE !in ext
    ensures 0 !in base + [DOT] + ext
    ensures Format(To83(base)) == Upper(base)
    ensures ext != [] ==> Format(To83(base + [DOT] + ext)) == Upper(base + [DOT] + ext)
  {
    NoZeros(base, ext);
    hide *;
    SplitAtDot(base, ext);
    ShortForm(base, base, []);
    if ext != [] {
      ShortForm(base + [DOT] + ext, base, ext);
      UpperSplit(base, ext);
    }
  }

  lemma NoZeros(base: CString, ext: CString)
    ensures 0 !in base + [DOT] + ext
  {
  }

  lemma ShortForm(s: CString, base: seq<byte>, ext: seq<byte>)
    requires Base(s) == base && Extension(s) == ext && |base| <= 8 && |ext| <= 3 && SPACE !in base && SPACE !in ext
    ensures Format(To83(s)) == if ext == [] then Upper(base) else Upper(base) + ([DOT] + Upper(ext))
  {
    hide Field, Trim, Before, To83, Base, Extension, Upper;
    Halves(s);
    FieldThenTrim(base, 8);
    FieldThenTrim(ext, 3);
  }

  lemma UpperSplit(base: seq<byte>, ext: seq<byte>)
    ensures Upper(base + [DOT] + ext) == Upper(base) + ([DOT] + Upper(ext))
  {
  }

  lemma FieldThenTrim(s: seq<byte>, width: nat)
    requires |s| <= width && SPACE !in s
    ensures Trim(Field(s, width)) == Upper(s)
    ensures s == [] && width > 0 ==> Field(s, width)[0] == SPACE
    ensures s != [] ==> Field(s, width)[0] != SPACE
  {
    var f := Field(s, width);
    assert forall i | 0 <= i < |s| :: f[..|s|][i] == ToUpper(s[i]) && s[i] in s;
    BeforeIs(f, SPACE, |s|);
  }

  /** A path never converts to a name that reads as an end marker; it converts to one that reads
      as deleted exactly when it begins with that byte. */
  lemma FirstByte(s: CString)
    ensures To83(s)[0] != 0
    ensures To83(s)[0] == 0xE5 <==> s != [] && s[0] == 0xE5
  {
    assert s != [] ==> s[0] in s;
  }
}
