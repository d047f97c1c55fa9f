/** Where blocks are stored in S3, and how the latest one is found by descending three levels of names. */
module BlockPaths {
  import opened Common

  // ---------- Decimal numbers ----------

  function Digit(d: nat): char
    requires d < 10
  {
    '0' + d as char
  }

  predicate IsDigit(c: char) { '0' <= c <= '9' }

  function Decimal(n: nat): (s: string)
    ensures s != [] && forall i :: 0 <= i < |s| ==> IsDigit(s[i])
  {
    if n < 10 then [Digit(n)] else Decimal(n / 10) + [Digit(n % 10)]
  }

  function Digits(s: string): Option<nat>
  {
    if s == [] then Some(0)
    else
      var n := |s| - 1;
      var front := Digits(s[..n]);
      if front.Some? && IsDigit(s[n]) then Some(10 * front.value + (s[n] - '0') as nat) else None
  }

  /** `str::parse::<u64>`: a sign is allowed, no digits at all or too many are not. */
  function ParseU64(s: string): Option<nat>
  {
    var t := if s != [] && s[0] == '+' then s[1..] else s;
    if t == [] then None
    else match Digits(t) case Some(n) => (if n < U64 then Some(n) else None) case None => None
  }

  lemma {:induction false} DigitsOfDecimal(n: nat)
    ensures Digits(Decimal(n)) == Some(n)
  {
    if n < 10 {
      assert Decimal(n)[..0] == [];
      assert Digits([]) == Some(0);
    } else {
      DigitsOfDecimal(n / 10);
      InitOfAppended(Decimal(n / 10), Digit(n % 10));
    }
  }

  lemma ParseOfDecimal(n: nat)
    requires n < U64
    ensures ParseU64(Decimal(n)) == Some(n)
  {
    DigitsOfDecimal(n);
  }

  // ---------- Names ----------

  const SUFFIX := ".rmp.lz4"

  /** The part behind the last slash. */
  function LastSegment(s: string): string
  {
    if s == [] || s[|s| - 1] == '/' then [] else LastSegment(s[..|s| - 1]) + [s[|s| - 1]]
  }

  /** `strip_suffix("/")`, if there is one. */
  function Trimmed(name: string): string
  {
    if name != [] && name[|name| - 1] == '/' then name[..|name| - 1] else name
  }

  /** `strip_suffix(".rmp.lz4")`. */
  function WithoutSuffix(s: string): Option<string>
  {
    if |s| >= |SUFFIX| && s[|s| - |SUFFIX|..] == SUFFIX then Some(s[..|s| - |SUFFIX|]) else None
  }

  /** The number in the last part of a name, if there is one. */
  function NumberOf(name: string, isDir: bool): Option<nat>
  {
    var last := LastSegment(Trimmed(name));
    match if isDir then Some(last) else WithoutSuffix(last)
    case None => None
    case Some(stem) => ParseU64(stem)
  }

  predicate NoSlash(s: string)
  {
    forall i :: 0 <= i < |s| ==> s[i] != '/'
  }

  lemma {:induction false} LastSegmentOf(a: string, b: string)
    requires NoSlash(b) && (a == [] || a[|a| - 1] == '/')
    ensures LastSegment(a + b) == b
  {
    if b == [] {
      assert a + b == a;
    } else {
      var n := |b| - 1;
      assert (a + b)[..|a + b| - 1] == a + b[..n];
      LastSegmentOf(a, b[..n]);
      InitAndLast(b);
    }
  }

  // ---------- Which names have which number ----------

  function Zeros(z: nat): string
  {
    if z == 0 then [] else Zeros(z - 1) + ['0']
  }

  lemma {:induction false} DigitsOfZeros(z: nat)
    ensures Digits(Zeros(z)) == Some(0)
  {
    if z > 0 {
      DigitsOfZeros(z - 1);
      InitOfAppended(Zeros(z - 1), '0');
    }
  }

  lemma {:induction false} ZerosDoNotCount(z: nat, t: string)
    ensures Digits(Zeros(z) + t) == Digits(t)
  {
    if t == [] {
      assert Zeros(z) + t == Zeros(z);
      DigitsOfZeros(z);
    } else {
      var n := |t| - 1;
      assert (Zeros(z) + t)[..|Zeros(z) + t| - 1] == Zeros(z) + t[..n];
      ZerosDoNotCount(z, t[..n]);
    }
  }

  /** A string of digits is the number it denotes in decimal, after any zeros. */
  lemma {:induction false} DigitsAreDecimal(s: string) returns (z: nat)
    requires s != [] && Digits(s).Some?
    ensures s == Zeros(z) + Decimal(Digits(s).value)
  {
    var m := |s| - 1;
    var front, d := s[..m], (s[m] - '0') as nat;
    InitAndLast(s);
    if front == [] {
      z := 0;
      assert s == [Digit(d)];
    } else {
      z := DigitsAreDecimal(front);
      z := OneMoreDigit(z, Digits(front).value, d);
    }
  }

  lemma OneMoreDigit(z: nat, q: nat, d: nat) returns (y: nat)
    requires d < 10
    ensures Zeros(z) + Decimal(q) + [Digit(d)] == Zeros(y) + Decimal(10 * q + d)
  {
    if q == 0 {
      y := z + 1;
      assert Decimal(0) == ['0'] && Zeros(y) == Zeros(z) + ['0'];
    } else {
      y := z;
      assert (10 * q + d) / 10 == q && (10 * q + d) % 10 == d;
      Associates(Zeros(z), Decimal(q), [Digit(d)]);
    }
  }

  lemma {:induction false} AllDigits(s: string, i: nat)
    requires Digits(s).Some? && i < |s|
    ensures IsDigit(s[i])
  {
    if i < |s| - 1 {
      AllDigits(s[..|s| - 1], i);
    }
  }

  /** `s` is a number below 2^64 in decimal, after a sign and zeros if any. */
  ghost predicate Spells(s: string, n: nat, sign: string, z: nat)
  {
    n < U64 && (sign == "" || sign == "+") && s == sign + (Zeros(z) + Decimal(n))
  }

  lemma SpelledIsParsed(s: string, n: nat, sign: string, z: nat)
    requires Spells(s, n, sign, z)
    ensures ParseU64(s) == Some(n)
  {
    var t := Zeros(z) + Decimal(n);
    ZerosDoNotCount(z, Decimal(n));
    DigitsOfDecimal(n);
    AllDigits(t, 0);
    if sign == "" {
      assert s == t;
    } else {
      assert s[0] == '+' && s[1..] == t;
    }
  }

  lemma ParsedIsSpelled(s: string) returns (sign: string, z: nat)
    requires ParseU64(s).Some?
    ensures Spells(s, ParseU64(s).value, sign, z)
  {
    if s[0] == '+' {
      sign := "+";
      z := DigitsAreDecimal(s[1..]);
      assert s == sign + s[1..];
    } else {
      sign := "";
      z := DigitsAreDecimal(s);
      assert s == sign + s;
    }
  }

  lemma {:induction false} LastSegmentIs(s: string) returns (prefix: string)
    ensures s == prefix + LastSegment(s) && NoSlash(LastSegment(s))
    ensures prefix == [] || prefix[|prefix| - 1] == '/'
  {
    if s == [] || s[|s| - 1] == '/' {
      prefix := s;
    } else {
      prefix := LastSegmentIs(s[..|s| - 1]);
      InitAndLast(s);
      Associates(prefix, LastSegment(s[..|s| - 1]), [s[|s| - 1]]);
    }
  }

  /** The last part of the name is the stem, with the suffix if it is not a directory; a final slash does not matter. */
  ghost predicate HasStem(name: string, isDir: bool, stem: string, prefix: string, tail: string)
  {
    && (prefix == [] || prefix[|prefix| - 1] == '/') && (tail == "" || tail == "/") && NoSlash(stem)
    && name == prefix + (stem + (if isDir then "" else SUFFIX)) + tail
  }

  ghost predicate HasNumber(name: string, isDir: bool, n: nat)
  {
    exists stem, prefix, tail, sign, z: nat :: HasStem(name, isDir, stem, prefix, tail) && Spells(stem, n, sign, z)
  }

  lemma TrimmedOf(s: string, tail: string)
    requires (tail == "" || tail == "/") && s != [] && s[|s| - 1] != '/'
    ensures Trimmed(s + tail) == s
  {
    if tail == "" {
      assert s + tail == s;
    } else {
      InitOfAppended(s, '/');
    }
  }

  lemma SuffixIsStripped(stem: string)
    ensures WithoutSuffix(stem + SUFFIX) == Some(stem)
  {
    var s := stem + SUFFIX;
    assert s[|stem|..] == SUFFIX && s[..|stem|] == stem;
  }

  lemma SuffixWasThere(s: string)
    requires WithoutSuffix(s).Some?
    ensures s == WithoutSuffix(s).value + SUFFIX
  {
  }

  lemma StemIsParsed(name: string, isDir: bool, stem: string, prefix: string, tail: string)
    requires HasStem(name, isDir, stem, prefix, tail) && stem != []
    ensures NumberOf(name, isDir) == ParseU64(stem)
  {
    var last := stem + if isDir then "" else SUFFIX;
    assert NoSlash(last) && (prefix + last)[|prefix + last| - 1] == last[|last| - 1];
    TrimmedOf(prefix + last, tail);
    LastSegmentOf(prefix, last);
    if isDir {
      assert last == stem;
    } else {
      SuffixIsStripped(stem);
    }
  }

  lemma NumberHasStem(name: string, isDir: bool) returns (stem: string, prefix: string, tail: string)
    requires NumberOf(name, isDir).Some?
    ensures HasStem(name, isDir, stem, prefix, tail) && ParseU64(stem) == NumberOf(name, isDir)
  {
    var trimmed := Trimmed(name);
    tail := if trimmed == name then "" else "/";
    assert name == trimmed + tail;
    prefix := LastSegmentIs(trimmed);
    var last := LastSegment(trimmed);
    if isDir {
      stem := last;
      assert last == stem + "";
    } else {
      stem := WithoutSuffix(last).value;
      SuffixWasThere(last);
    }
  }

  /** Exactly these names have a number. */
  lemma NumberOfIs(name: string, isDir: bool, n: nat)
    ensures NumberOf(name, isDir) == Some(n) <==> HasNumber(name, isDir, n)
  {
    if NumberOf(name, isDir) == Some(n) {
      var stem, prefix, tail := NumberHasStem(name, isDir);
      var sign, z := ParsedIsSpelled(stem);
      assert HasStem(name, isDir, stem, prefix, tail) && Spells(stem, n, sign, z);
    }
    if HasNumber(name, isDir, n) {
      var stem, prefix, tail, sign, z: nat :|
        HasStem(name, isDir, stem, prefix, tail) && Spells(stem, n, sign, z);
      SpelledIsParsed(stem, n, sign, z);
      StemIsParsed(name, isDir, stem, prefix, tail);
    }
  }

  datatype Numbered = Numbered(number: nat, name: string)

  /** Sorts a name in behind those with the same or a smaller number. */
  function SortIn(sorted: seq<Numbered>, x: Numbered): seq<Numbered>
  {
    if sorted == [] || sorted[|sorted| - 1].number <= x.number then sorted + [x]
    else SortIn(sorted[..|sorted| - 1], x) + [sorted[|sorted| - 1]]
  }

  /** The stable `sort_by_key` on the number. */
  function SortByNumber(xs: seq<Numbered>): seq<Numbered>
  {
    if xs == [] then [] else SortIn(SortByNumber(xs[..|xs| - 1]), xs[|xs| - 1])
  }

  /** The last of those with the largest number. */
  function Largest(xs: seq<Numbered>): Numbered
    requires xs != []
  {
    var n := |xs| - 1;
    if n == 0 || xs[n].number >= Largest(xs[..n]).number then xs[n] else Largest(xs[..n])
  }

  lemma {:induction false} LastOfSorted(xs: seq<Numbered>)
    requires xs != []
    ensures var s := SortByNumber(xs); s != [] && s[|s| - 1] == Largest(xs)
  {
    if |xs| > 1 {
      LastOfSorted(xs[..|xs| - 1]);
    }
  }

  lemma {:induction false} LargestIs(xs: seq<Numbered>, x: Numbered)
    requires xs != []
    ensures Largest(xs) in xs && (x in xs ==> x.number <= Largest(xs).number)
  {
    var n := |xs| - 1;
    InitAndLast(xs);
    assert x in xs ==> x in xs[..n] || x == xs[n];
    if n > 0 {
      LargestIs(xs[..n], x);
    }
  }

  function WithNumbers(files: seq<string>, isDir: bool): seq<Numbered>
  {
    if files == [] then []
    else
      var n := |files| - 1;
      WithNumbers(files[..n], isDir) +
      match NumberOf(files[n], isDir) case None => [] case Some(k) => [Numbered(k, files[n])]
  }

  lemma {:induction false} InWithNumbers(files: seq<string>, isDir: bool, x: Numbered)
    ensures x in WithNumbers(files, isDir) <==> x.name in files && NumberOf(x.name, isDir) == Some(x.number)
  {
    if files != [] {
      var n := |files| - 1;
      InWithNumbers(files[..n], isDir, x);
      InitAndLast(files);
    }
  }

  /** One of the names with the largest number, if any has a number at all. */
  ghost predicate Picked(names: seq<string>, isDir: bool, r: Option<Numbered>)
  {
    match r
    case None => forall name :: name in names ==> NumberOf(name, isDir).None?
    case Some(x) =>
      && x.name in names && NumberOf(x.name, isDir) == Some(x.number)
      && (forall name :: name in names && NumberOf(name, isDir).Some? ==> NumberOf(name, isDir).value <= x.number)
  }

  lemma AllAreNumbered(files: seq<string>, isDir: bool, name: string)
    requires name in files
    ensures NumberOf(name, isDir).Some? ==> Numbered(NumberOf(name, isDir).value, name) in WithNumbers(files, isDir)
  {
    if NumberOf(name, isDir).Some? {
      InWithNumbers(files, isDir, Numbered(NumberOf(name, isDir).value, name));
    }
  }

  function LargestName(files: seq<string>, isDir: bool): Option<Numbered>
  {
    var numbered := WithNumbers(files, isDir);
    if numbered == [] then None else Some(Largest(numbered))
  }

  lemma LargestNameIsPicked(files: seq<string>, isDir: bool)
    ensures Picked(files, isDir, LargestName(files, isDir))
  {
    var numbered := WithNumbers(files, isDir);
    forall name | name in files && NumberOf(name, isDir).Some?
      ensures numbered != [] && NumberOf(name, isDir).value <= Largest(numbered).number
    {
      AllAreNumbered(files, isDir, name);
      LargestIs(numbered, Numbered(NumberOf(name, isDir).value, name));
    }
    if numbered != [] {
      LargestIs(numbered, Largest(numbered));
      InWithNumbers(files, isDir, Largest(numbered));
    }
  }

  /** `name_with_largest_number`. */
  method NameWithLargestNumber(files: seq<string>, isDir: bool) returns (r: Option<Numbered>)
    ensures r == LargestName(files, isDir)
  {
    var numbered: seq<Numbered> := [];
    for i := 0 to |files|
      invariant numbered == WithNumbers(files[..i], isDir)
    {
      assert files[..i + 1][..i] == files[..i];
      var number := NumberOf(files[i], isDir);
      if number.Some? {
        numbered := numbered + [Numbered(number.value, files[i])];
      }
    }
    assert files[..|files|] == files;
    if numbered == [] {
      return None;
    }
    var sorted := SortByNumber(numbered);
    LastOfSorted(numbered);
    return Some(sorted[|sorted| - 1]);
  }

  // ---------- Paths ----------

  type Height = h: nat | h < U64

  /** `height - 1`, which wraps around for height 0. */
  function Slot(h: Height): nat { WrapSub(h, 1) }

  function FirstLevel(h: Height): nat { Slot(h) / 1_000_000 * 1_000_000 }

  function SecondLevel(h: Height): nat { Slot(h) / 1_000 * 1_000 }

  function FirstDir(h: Height): string { Decimal(FirstLevel(h)) + "/" }

  function SecondDir(h: Height): string { FirstDir(h) + (Decimal(SecondLevel(h)) + "/") }

  /** `rmp_path`. */
  function RmpPath(h: Height): string { SecondDir(h) + (Decimal(h) + SUFFIX) }

  lemma LevelsFit(h: Height)
    ensures FirstLevel(h) <= SecondLevel(h) <= Slot(h) < U64
  {
    FloorFits(Slot(h), 1_000);
    ThousandThousands(Slot(h));
    FloorFits(Slot(h) / 1_000, 1_000);
  }

  lemma FloorFits(x: nat, k: nat)
    requires k > 0
    ensures x / k * k <= x
  {
  }

  lemma MultiplesAreApart(p: nat, q: nat, k: nat)
    ensures p > q ==> p * k >= q * k + k
    ensures p == q ==> p * k == q * k
  {
    if p > q {
      assert p * k == (p - q - 1) * k + q * k + k;
    }
  }

  lemma FloorIsMonotone(x: nat, y: nat, k: nat)
    requires x <= y && k > 0
    ensures x / k * k <= y / k * k
  {
    MultiplesAreApart(x / k, y / k, k);
    FloorFits(x, k);
    assert y - y / k * k == y % k < k;
    MultiplesAreApart(y / k, x / k, k);
  }

  lemma ThousandThousands(x: nat)
    ensures x / 1_000_000 == x / 1_000 / 1_000
  {
  }

  lemma NumberOfFirstDir(h: Height)
    ensures NumberOf(FirstDir(h), true) == Some(FirstLevel(h))
  {
    var d := Decimal(FirstLevel(h));
    LevelsFit(h);
    InitOfAppended(d, '/');
    assert [] + d == d;
    LastSegmentOf([], d);
    ParseOfDecimal(FirstLevel(h));
  }

  lemma NumberOfSecondDir(h: Height)
    ensures NumberOf(SecondDir(h), true) == Some(SecondLevel(h))
  {
    var a, d := FirstDir(h), Decimal(SecondLevel(h));
    LevelsFit(h);
    Associates(a, d, "/");
    InitOfAppended(a + d, '/');
    LastSegmentOf(a, d);
    ParseOfDecimal(SecondLevel(h));
  }

  /** A block's height can be read off its path; so no two blocks share one. */
  lemma NumberOfPath(h: Height)
    ensures NumberOf(RmpPath(h), false) == Some(h)
  {
    var a, d := SecondDir(h), Decimal(h);
    assert NoSlash(SUFFIX) && SUFFIX[|SUFFIX| - 1] == '4';
    assert RmpPath(h)[|RmpPath(h)| - 1] == '4';
    LastSegmentOf(a, d + SUFFIX);
    assert (d + SUFFIX)[|d|..] == SUFFIX && (d + SUFFIX)[..|d|] == d;
    ParseOfDecimal(h);
  }

  lemma PathsAreInjective(a: Height, b: Height)
    requires RmpPath(a) == RmpPath(b)
    ensures a == b
  {
    NumberOfPath(a);
    NumberOfPath(b);
  }

  // ---------- Directory sizes ----------

  /** A set of numbers among `base`, `base + step`, ... has no more than `n` of them. */
  lemma {:induction false} FewOnGrid(s: set<nat>, base: nat, step: nat, n: nat)
    requires forall x :: x in s ==> exists k: nat :: OnGrid(x, base, step, k) && k < n
    ensures |s| <= n
  {
    if n == 0 {
      assert s == {};
    } else {
      var top := base + step * (n - 1);
      var rest := s - {top};
      forall x | x in rest
        ensures exists k: nat :: OnGrid(x, base, step, k) && k < n - 1
      {
        var k: nat :| OnGrid(x, base, step, k) && k < n;
        assert k < n - 1;
      }
      FewOnGrid(rest, base, step, n - 1);
    }
  }

  ghost predicate OnGrid(x: nat, base: nat, step: nat, k: nat) { x == base + step * k }

  /** No second-level directory holds more than 1000 blocks. */
  lemma FewBlocksPerDirectory(stored: set<Height>, s: nat)
    requires forall h :: h in stored ==> SecondLevel(h) == s
    ensures |stored| <= 1000
  {
    var base := s + 1;
    if 0 in stored {
      // Only height 0 wraps around, and few slots remain behind its directory's first.
      var rest: set<nat> := set h | h in stored && h != 0;
      assert stored == rest + {0};
      forall h | h in rest
        ensures exists k: nat :: OnGrid(h, base, 1, k) && k < 999
      {
        assert OnGrid(h, base, 1, h - base);
      }
      FewOnGrid(rest, base, 1, 999);
    } else {
      var all: set<nat> := set h | h in stored;
      assert stored == all;
      forall h | h in all
        ensures exists k: nat :: OnGrid(h, base, 1, k) && k < 1000
      {
        assert OnGrid(h, base, 1, h - base);
      }
      FewOnGrid(all, base, 1, 1000);
    }
  }

  lemma SecondLevelOnGrid(h: Height)
    ensures exists k: nat :: OnGrid(SecondLevel(h), FirstLevel(h), 1000, k) && k < 1000
  {
    var k: int := Slot(h) / 1000 - Slot(h) / 1_000_000 * 1000;
    assert 0 <= k < 1000;
    assert OnGrid(SecondLevel(h), FirstLevel(h), 1000, k);
  }

  /** No first-level directory holds more than 1000 second-level ones. */
  lemma FewDirectoriesPerDirectory(stored: set<Height>, f: nat)
    requires forall h :: h in stored ==> FirstLevel(h) == f
    ensures |set h | h in stored :: SecondLevel(h)| <= 1000
  {
    var dirs: set<nat> := set h | h in stored :: SecondLevel(h);
    forall x | x in dirs
      ensures exists k: nat :: OnGrid(x, f, 1000, k) && k < 1000
    {
      var h :| h in stored && SecondLevel(h) == x;
      SecondLevelOnGrid(h);
    }
    FewOnGrid(dirs, f, 1000, 1000);
  }

  // ---------- The descent ----------

  /** The bucket as S3 lists it, each level in any order. */
  datatype Bucket = Bucket(top: seq<string>, dirs: string -> seq<string>, files: string -> seq<string>)
  {
    function DirsIn(d: string): seq<string> { dirs(d) }

    function FilesIn(d: string): seq<string> { files(d) }
  }

  function Names(names: seq<string>): set<string> { set x | x in names }

  function FirstDirs(stored: set<Height>): set<string> { set h | h in stored :: FirstDir(h) }

  function SecondDirs(stored: set<Height>, dir: string): set<string>
  {
    set h | h in stored && FirstDir(h) == dir :: SecondDir(h)
  }

  function Paths(stored: set<Height>, dir: string): set<string>
  {
    set h | h in stored && SecondDir(h) == dir :: RmpPath(h)
  }

  /** Every level of the bucket lists what is stored below it, and nothing else. */
  ghost predicate Lists(b: Bucket, stored: set<Height>)
  {
    && Names(b.top) == FirstDirs(stored)
    && (forall d :: Names(b.DirsIn(d)) == SecondDirs(stored, d))
    && (forall d :: Names(b.FilesIn(d)) == Paths(stored, d))
  }

  /** The block in the highest slot; height 0 would be in the very last. */
  ghost predicate Foremost(stored: set<Height>, top: Height)
  {
    top in stored && forall h :: h in stored ==> Slot(h) <= Slot(top)
  }

  /** The highest block in the same directory as `top`. */
  ghost predicate HighestBeside(stored: set<Height>, top: Height, r: Height)
  {
    && r in stored && SecondLevel(r) == SecondLevel(top)
    && (forall h :: h in stored && SecondLevel(h) == SecondLevel(top) ==> h <= r)
  }

  lemma SecondLevelGivesFirst(a: Height, b: Height)
    requires SecondLevel(a) == SecondLevel(b)
    ensures FirstLevel(a) == FirstLevel(b)
  {
    ThousandThousands(Slot(a));
    ThousandThousands(Slot(b));
  }

  lemma SameLevelsSameDirs(a: Height, b: Height)
    ensures SecondDir(a) == SecondDir(b) <==> SecondLevel(a) == SecondLevel(b)
  {
    NumberOfSecondDir(a);
    NumberOfSecondDir(b);
    if SecondLevel(a) == SecondLevel(b) {
      SecondLevelGivesFirst(a, b);
    }
  }

  lemma LevelsAreMonotone(a: Height, b: Height)
    requires Slot(a) <= Slot(b)
    ensures FirstLevel(a) <= FirstLevel(b) && SecondLevel(a) <= SecondLevel(b)
  {
    FloorIsMonotone(Slot(a), Slot(b), 1_000_000);
    FloorIsMonotone(Slot(a), Slot(b), 1_000);
  }

  /** The largest first-level directory, in it the largest second-level one, in that the largest file. */
  function Latest(b: Bucket): Option<nat>
  {
    match LargestName(b.top, true)
    case None => None
    case Some(first) =>
      match LargestName(b.DirsIn(first.name), true)
      case None => None
      case Some(second) =>
        match LargestName(b.FilesIn(second.name), false)
        case None => None
        case Some(third) => Some(third.number)
  }

  /** `find_latest_block_number` of the S3 source. */
  method FindLatestBlockNumber(b: Bucket) returns (r: Option<nat>)
    ensures r == Latest(b)
  {
    var first := NameWithLargestNumber(b.top, true);
    if first.None? {
      return None;
    }
    var second := NameWithLargestNumber(b.DirsIn(first.value.name), true);
    if second.None? {
      return None;
    }
    var third := NameWithLargestNumber(b.FilesIn(second.value.name), false);
    return match third case None => None case Some(x) => Some(x.number);
  }

  lemma EmptyBucketHasNoLatest(b: Bucket)
    requires Lists(b, {})
    ensures Latest(b) == None
  {
    LargestNameIsPicked(b.top, true);
    assert forall x :: x in b.top ==> x in FirstDirs({}) by {
      assert forall x :: x in b.top ==> x in Names(b.top);
    }
  }

  lemma PicksFirst(b: Bucket, stored: set<Height>, top: Height)
    requires Lists(b, stored) && Foremost(stored, top)
    ensures LargestName(b.top, true) == Some(Numbered(FirstLevel(top), FirstDir(top)))
  {
    LargestNameIsPicked(b.top, true);
    NumberOfFirstDir(top);
    assert FirstDir(top) in Names(b.top);
    var name := LargestName(b.top, true).value.name;
    assert name in Names(b.top);
    var h :| h in stored && name == FirstDir(h);
    NumberOfFirstDir(h);
    LevelsAreMonotone(h, top);
    assert FirstLevel(h) == FirstLevel(top);
  }

  lemma PicksSecond(b: Bucket, stored: set<Height>, top: Height)
    requires Lists(b, stored) && Foremost(stored, top)
    ensures LargestName(b.DirsIn(FirstDir(top)), true) == Some(Numbered(SecondLevel(top), SecondDir(top)))
  {
    var names := b.DirsIn(FirstDir(top));
    LargestNameIsPicked(names, true);
    NumberOfSecondDir(top);
    assert SecondDir(top) in Names(names);
    var name := LargestName(names, true).value.name;
    assert name in Names(names);
    var h :| h in stored && FirstDir(h) == FirstDir(top) && name == SecondDir(h);
    NumberOfSecondDir(h);
    LevelsAreMonotone(h, top);
    SameLevelsSameDirs(h, top);
  }

  lemma PicksThird(b: Bucket, stored: set<Height>, top: Height)
    requires Lists(b, stored) && Foremost(stored, top)
    ensures
      var r := LargestName(b.FilesIn(SecondDir(top)), false);
      r.Some? && r.value.number < U64 && HighestBeside(stored, top, r.value.number)
  {
    var names := b.FilesIn(SecondDir(top));
    LargestNameIsPicked(names, false);
    NumberOfPath(top);
    assert RmpPath(top) in Names(names);
    var x := LargestName(names, false).value;
    assert x.name in Names(names);
    var h :| h in stored && SecondDir(h) == SecondDir(top) && x.name == RmpPath(h);
    NumberOfPath(h);
    SameLevelsSameDirs(h, top);
    forall j | j in stored && SecondLevel(j) == SecondLevel(top)
      ensures j <= x.number
    {
      IsListedBeside(b, stored, top, j);
      NumberOfPath(j);
    }
  }

  lemma IsListedBeside(b: Bucket, stored: set<Height>, top: Height, j: Height)
    requires Lists(b, stored) && j in stored && SecondLevel(j) == SecondLevel(top)
    ensures RmpPath(j) in b.FilesIn(SecondDir(top))
  {
    SameLevelsSameDirs(j, top);
    assert RmpPath(j) in Names(b.FilesIn(SecondDir(top)));
  }

  lemma FollowsTop(b: Bucket, top: Height, x: Numbered)
    requires LargestName(b.top, true) == Some(Numbered(FirstLevel(top), FirstDir(top)))
    requires LargestName(b.DirsIn(FirstDir(top)), true) == Some(Numbered(SecondLevel(top), SecondDir(top)))
    requires LargestName(b.FilesIn(SecondDir(top)), false) == Some(x)
    ensures Latest(b) == Some(x.number)
  {
  }

  /** However the levels are listed, the descent ends at the highest block of the foremost block's directory. */
  lemma DescentFollowsTop(b: Bucket, stored: set<Height>, top: Height)
    requires Lists(b, stored) && Foremost(stored, top)
    ensures Latest(b).Some? && Latest(b).value < U64 && HighestBeside(stored, top, Latest(b).value)
  {
    PicksFirst(b, stored, top);
    PicksSecond(b, stored, top);
    PicksThird(b, stored, top);
    FollowsTop(b, top, LargestName(b.FilesIn(SecondDir(top)), false).value);
  }

  /** The block of height 0 is foremost if it is there, and otherwise the highest one. */
  lemma ForemostIs(stored: set<Height>, highest: Height)
    requires highest in stored && forall h :: h in stored ==> h <= highest
    ensures Foremost(stored, if 0 in stored then 0 else highest)
  {
  }

  lemma BesideIsHighestIff(stored: set<Height>, highest: Height, r: Height)
    requires highest in stored && forall h :: h in stored ==> h <= highest
    requires HighestBeside(stored, if 0 in stored then 0 else highest, r)
    ensures r == highest <==> 0 !in stored || SecondLevel(highest) == SecondLevel(0)
  {
  }

  /**
   The descent finds the highest block exactly if block 0 is not stored, or the highest block lies in
   block 0's directory.
   */
  lemma DescentFindsHighestIff(b: Bucket, stored: set<Height>, highest: Height)
    requires Lists(b, stored)
    requires highest in stored && forall h :: h in stored ==> h <= highest
    ensures Latest(b) == Some(highest) <==> 0 !in stored || SecondLevel(highest) == SecondLevel(0)
  {
    ForemostIs(stored, highest);
    DescentFollowsTop(b, stored, if 0 in stored then 0 else highest);
    BesideIsHighestIff(stored, highest, Latest(b).value);
  }

  /** Block 0 sends the descent to the last directory there could be, away from block 5. */
  lemma BlockZeroMisleads(b: Bucket)
    requires Lists(b, {0, 5})
    ensures Latest(b) == Some(0)
  {
    assert Foremost({0, 5}, 0);
    DescentFollowsTop(b, {0, 5}, 0);
  }
}
