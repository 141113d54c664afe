/** File and path names used when the chunks are written to the archive:
    the stem of the uploaded file name (POSIX `os.path.splitext`), the decimal
    rendering of the chunk index (`str(idx)`), and the path of an entry inside
    the archive (POSIX `os.path.join` under the fixed folder `split_files`). */
module Naming {

  /** The folder inside the archive that holds every chunk file. */
  const FolderName: string := "split_files"

  /** Index of the last occurrence of `c` in `s`, or -1 when there is none
      (Python's `str.rfind`). */
  function LastIndexOf(s: string, c: char): (r: int)
    ensures -1 <= r < |s|
    ensures r >= 0 ==> s[r] == c
    ensures forall j :: r < j < |s| ==> s[j] != c
  {
    if |s| == 0 then -1
    else if s[|s| - 1] == c then |s| - 1
    else LastIndexOf(s[..|s| - 1], c)
  }

  /** A character that does not occur at or after index `from` does not
      occur in the tail `s[from..]`. */
  lemma NotInTail(s: string, from: nat, c: char)
    requires from <= |s|
    requires forall j :: from <= j < |s| ==> s[j] != c
    ensures c !in s[from..]
  {
    var tail := s[from..];
    forall j | 0 <= j < |tail| ensures tail[j] != c {
      assert tail[j] == s[from + j];
    }
  }

  /** Splitting at the last '.', which lies after the last '/', leaves a
      suffix that starts with '.' and holds no other '.' and no '/'. */
  lemma ExtensionAt(p: string, dot: int, sep: int)
    requires -1 <= sep < dot < |p| && p[dot] == '.'
    requires forall j :: dot < j < |p| ==> p[j] != '.'
    requires forall j :: sep < j < |p| ==> p[j] != '/'
    ensures p[..dot] + p[dot..] == p
    ensures p[dot..][0] == '.' && '.' !in p[dot..][1..] && '/' !in p[dot..]
  {
    NotInTail(p, dot, '/');
    NotInTail(p, dot + 1, '.');
    assert p[dot..][1..] == p[dot + 1..];
  }

  /** Whether `p[lo..hi]` consists of dots only: the scan `splitext` makes
      over the final component, from its start up to the last dot. */
  predicate AllDots(p: string, lo: nat, hi: nat)
    requires hi <= |p|
    decreases hi - lo
  {
    lo >= hi || (p[lo] == '.' && AllDots(p, lo + 1, hi))
  }

  /** A scan that finds a non-dot character stops at one. */
  lemma {:induction false} NonDotFound(p: string, lo: nat, hi: nat)
    requires hi <= |p| && !AllDots(p, lo, hi)
    ensures exists i :: lo <= i < hi && p[i] != '.'
    decreases hi - lo
  {
    if p[lo] == '.' {
      NonDotFound(p, lo + 1, hi);
    }
  }

  /** A scan over a range holding a non-dot character finds one. */
  lemma {:induction false} NonDotSeen(p: string, lo: nat, hi: nat, i: nat)
    requires lo <= i < hi <= |p| && p[i] != '.'
    ensures !AllDots(p, lo, hi)
    decreases i - lo
  {
    if lo < i {
      NonDotSeen(p, lo + 1, hi, i);
    }
  }

  /** POSIX `os.path.splitext`: the extension is the part from the last '.'
      of the final path component, unless everything in that component
      before the dot is a dot as well (a hidden file such as ".csv" has no
      extension). Returns (stem, extension). */
  function SplitExt(p: string): (r: (string, string))
    ensures r.0 + r.1 == p
    ensures r.1 == "" || (r.1[0] == '.' && '.' !in r.1[1..] && '/' !in r.1)
  {
    var sep := LastIndexOf(p, '/');
    var dot := LastIndexOf(p, '.');
    if dot > sep && !AllDots(p, sep + 1, dot) then
      ExtensionAt(p, dot, sep);
      (p[..dot], p[dot..])
    else
      (p, "")
  }

  /** A non-empty extension is only split off a final path component that
      has a character other than '.' before it: the stem then ends in such a
      character followed by no '/'. */
  lemma SplitExtKeepsName(p: string)
    requires SplitExt(p).1 != ""
    ensures exists i :: 0 <= i < |SplitExt(p).0| && SplitExt(p).0[i] != '.' && '/' !in SplitExt(p).0[i..]
  {
    var sep := LastIndexOf(p, '/');
    var dot := LastIndexOf(p, '.');
    var stem := SplitExt(p).0;
    assert stem == p[..dot];
    NonDotFound(p, sep + 1, dot);
    var i :| sep + 1 <= i < dot && p[i] != '.';
    assert stem[i] == p[i] != '.';
    assert '/' !in stem[i..] by {
      forall j | 0 <= j < |stem[i..]| ensures stem[i..][j] != '/' {
        assert stem[i..][j] == p[i + j];
      }
    }
  }

  /** The stem the chunk files are named after: the upload name without its
      final extension. */
  function Stem(uploadName: string): (stem: string)
    ensures |stem| <= |uploadName| && uploadName[..|stem|] == stem
  {
    SplitExt(uploadName).0
  }

  /** A name with no '/' whose part before the final ".ext" contains a
      character other than '.' splits into exactly that part and ".ext". */
  lemma SplitExtOfFileName(base: string, ext: string)
    requires '/' !in base && exists i :: 0 <= i < |base| && base[i] != '.'
    requires '.' !in ext && '/' !in ext
    ensures SplitExt(base + "." + ext) == (base, "." + ext)
  {
    var p := base + "." + ext;
    var n := |base|;
    assert p[n] == '.';
    assert p[..n] == base && p[n..] == "." + ext;
    var dot := LastIndexOf(p, '.');
    assert dot == n by {
      forall j | n < j < |p| ensures p[j] != '.' {
        assert p[j] == ext[j - n - 1];
      }
    }
    var sep := LastIndexOf(p, '/');
    assert sep == -1 by {
      forall j | 0 <= j < |p| ensures p[j] != '/' {
        if j < n { assert p[j] == base[j]; }
        else if j > n { assert p[j] == ext[j - n - 1]; }
      }
    }
    var i :| 0 <= i < n && base[i] != '.';
    assert p[i] == base[i];
    NonDotSeen(p, 0, dot, i);
  }

  /** A name without any '.' has no extension: its stem is the whole name. */
  lemma SplitExtWithoutDot(p: string)
    requires '.' !in p
    ensures SplitExt(p) == (p, "")
  {
    var dot := LastIndexOf(p, '.');
    assert dot == -1;
  }

  /** A hidden file name, '.' followed by text without '.' or '/', has no
      extension either. */
  lemma SplitExtOfHiddenName(rest: string)
    requires '.' !in rest && '/' !in rest
    ensures SplitExt("." + rest) == ("." + rest, "")
  {
    var p := "." + rest;
    var dot := LastIndexOf(p, '.');
    var sep := LastIndexOf(p, '/');
    assert dot == 0 by {
      assert p[0] == '.';
      forall j | 0 < j < |p| ensures p[j] != '.' { assert p[j] == rest[j - 1]; }
    }
    assert sep == -1 by {
      assert p[0] != '/';
      forall j | 0 < j < |p| ensures p[j] != '/' { assert p[j] == rest[j - 1]; }
    }
    assert AllDots(p, sep + 1, dot);
  }

  function DigitChar(d: nat): (c: char)
    requires d < 10
    ensures '0' <= c <= '9' && c as int - '0' as int == d
  {
    (d + '0' as int) as char
  }

  predicate IsDigit(c: char) {
    '0' <= c <= '9'
  }

  /** Python's `str(n)` for a non-negative integer: its decimal digits, most
      significant first, without leading zeros. */
  function Decimal(n: nat): (s: string)
    ensures |s| >= 1
    ensures forall i :: 0 <= i < |s| ==> IsDigit(s[i])
    ensures s[0] == '0' ==> n == 0
    decreases n
  {
    if n < 10 then [DigitChar(n)] else Decimal(n / 10) + [DigitChar(n % 10)]
  }

  /** The value of a string of decimal digits (the inverse of `Decimal`). */
  function ParseDecimal(s: string): (n: nat)
    requires forall i :: 0 <= i < |s| ==> IsDigit(s[i])
    ensures |s| == 0 ==> n == 0
  {
    if |s| == 0 then 0
    else
      assert IsDigit(s[|s| - 1]);
      ParseDecimal(s[..|s| - 1]) * 10 + (s[|s| - 1] as int - '0' as int)
  }

  /** Reading back the decimal rendering of `n` gives `n`. */
  lemma {:induction false} ParseDecimalOfDecimal(n: nat)
    ensures ParseDecimal(Decimal(n)) == n
    decreases n
  {
    var s := Decimal(n);
    if n >= 10 {
      ParseDecimalOfDecimal(n / 10);
      assert s[..|s| - 1] == Decimal(n / 10);
    }
  }

  /** Distinct chunk indices render as distinct strings. */
  lemma DecimalInjective(m: nat, n: nat)
    requires Decimal(m) == Decimal(n)
    ensures m == n
  {
    ParseDecimalOfDecimal(m);
    ParseDecimalOfDecimal(n);
  }

  /** POSIX `os.path.join(a, b)` for two components: an absolute `b` replaces
      `a`; otherwise `b` is appended after a single '/'. */
  function Join(a: string, b: string): (r: string)
    ensures |b| > 0 && b[0] == '/' ==> r == b
    ensures (|b| == 0 || b[0] != '/') ==> |r| >= |b| && r[|r| - |b|..] == b
    ensures (|b| == 0 || b[0] != '/') && |a| > 0 && a[|a| - 1] != '/' ==> r == a + "/" + b
    ensures (|b| == 0 || b[0] != '/') && (|a| == 0 || a[|a| - 1] == '/') ==> r == a + b
  {
    if |b| > 0 && b[0] == '/' then b
    else if |a| == 0 || a[|a| - 1] == '/' then a + b
    else a + "/" + b
  }

  /** The file name of chunk `idx` (1-based), `f"{stem}{idx}.csv"`: it starts
      with the stem, ends in ".csv", and the digits between give back `idx`. */
  function ChunkFileName(stem: string, idx: nat): (name: string)
    ensures |name| >= |stem| + 5 && name[..|stem|] == stem && name[|name| - 4..] == ".csv"
  {
    stem + Decimal(idx) + ".csv"
  }

  /** The digits between the stem and ".csv" in a chunk's file name read
      back as the chunk's index. */
  lemma ChunkFileNameIndex(stem: string, idx: nat)
    ensures var name := ChunkFileName(stem, idx);
      (forall i :: |stem| <= i < |name| - 4 ==> IsDigit(name[i])) &&
      ParseDecimal(name[|stem|..|name| - 4]) == idx
  {
    var name := ChunkFileName(stem, idx);
    assert name[|stem|..|name| - 4] == Decimal(idx);
    ParseDecimalOfDecimal(idx);
  }

  /** The path of chunk `idx` inside the archive, `os.path.join("split_files",
      name)`: the file name under the folder, or the file name alone when the
      stem is an absolute path. */
  function ChunkPath(stem: string, idx: nat): (p: string)
    ensures (|stem| == 0 || stem[0] != '/') ==> p == FolderName + "/" + ChunkFileName(stem, idx)
    ensures |stem| > 0 && stem[0] == '/' ==> p == ChunkFileName(stem, idx)
  {
    var name := stem + Decimal(idx) + ".csv";
    assert |stem| > 0 ==> name[0] == stem[0];
    assert |stem| == 0 ==> name[0] == Decimal(idx)[0];
    Join(FolderName, name)
  }

  /** For a stem that is not an absolute path, the entry path is
      "split_files/" + stem + idx + ".csv". */
  lemma ChunkPathInFolder(stem: string, idx: nat)
    requires |stem| == 0 || stem[0] != '/'
    ensures ChunkPath(stem, idx) == "split_files/" + stem + Decimal(idx) + ".csv"
  {
    var name := ChunkFileName(stem, idx);
    if |stem| == 0 {
      assert name[0] == Decimal(idx)[0];
    } else {
      assert name[0] == stem[0];
    }
  }

  /** Everything in a chunk path before the index: the folder and the stem,
      or the stem alone when it is an absolute path. */
  function PathPrefix(stem: string): string {
    if |stem| > 0 && stem[0] == '/' then stem else FolderName + "/" + stem
  }

  /** Every chunk path is the stem's prefix, the index and ".csv". */
  lemma ChunkPathSplit(stem: string, idx: nat)
    ensures ChunkPath(stem, idx) == PathPrefix(stem) + Decimal(idx) + ".csv"
  {
    var d := Decimal(idx);
    var name := ChunkFileName(stem, idx);
    assert name == stem + (d + ".csv");
    assert name[0] == if |stem| > 0 then stem[0] else d[0];
  }

  /** Text between a common prefix and a common suffix is determined. */
  lemma SameMiddle(pre: string, a: string, b: string, suf: string)
    requires pre + a + suf == pre + b + suf
    ensures a == b
  {
    var p := pre + a + suf;
    assert |a| == |b|;
    assert a == p[|pre|..|pre| + |a|];
    assert b == (pre + b + suf)[|pre|..|pre| + |b|];
  }

  /** Two chunks with different indices never get the same path. */
  lemma ChunkPathsDistinct(stem: string, i: nat, j: nat)
    requires i != j
    ensures ChunkPath(stem, i) != ChunkPath(stem, j)
  {
    ChunkPathSplit(stem, i);
    ChunkPathSplit(stem, j);
    if ChunkPath(stem, i) == ChunkPath(stem, j) {
      SameMiddle(PathPrefix(stem), Decimal(i), Decimal(j), ".csv");
      DecimalInjective(i, j);
    }
  }
}
