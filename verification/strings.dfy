/** String surgery shared by the tools: Python's `endswith`, `str.replace(p, "")`,
    `split("/")[-1]`, ASCII case mapping, decimal rendering and line splitting. */
module Strings {
  import opened Seqs

  /* ---------- prefixes, suffixes and occurrences ---------- */

  predicate StartsWith(s: string, p: string) {
    |p| <= |s| && s[..|p|] == p
  }

  /** Python's `s.endswith(p)`; every string ends with the empty string. */
  predicate EndsWith(s: string, p: string) {
    |p| <= |s| && s[|s| - |p|..] == p
  }

  /** `p` occurs in `s` starting at index `i`. */
  predicate OccursAt(s: string, p: string, i: int) {
    0 <= i && i + |p| <= |s| && s[i..i + |p|] == p
  }

  /** Python's `p in s`. */
  predicate Contains(s: string, p: string) {
    exists i :: 0 <= i <= |s| && OccursAt(s, p, i)
  }

  lemma ContainsShift(c: char, s: string, p: string)
    requires Contains([c] + s, p)
    requires !StartsWith([c] + s, p)
    ensures Contains(s, p)
  {
    var i :| 0 <= i <= |[c] + s| && OccursAt([c] + s, p, i);
    assert i != 0;
    assert ([c] + s)[i..i + |p|] == s[i - 1..i - 1 + |p|];
    assert OccursAt(s, p, i - 1);
  }

  lemma ContainsExtend(c: char, s: string, p: string)
    requires Contains(s, p)
    ensures Contains([c] + s, p)
  {
    var i :| 0 <= i <= |s| && OccursAt(s, p, i);
    assert ([c] + s)[i + 1..i + 1 + |p|] == s[i..i + |p|];
    assert OccursAt([c] + s, p, i + 1);
  }

  lemma ContainsDrop(s: string, p: string, k: nat)
    requires k <= |s|
    requires Contains(s[k..], p)
    ensures Contains(s, p)
  {
    var i :| 0 <= i <= |s[k..]| && OccursAt(s[k..], p, i);
    assert s[k..][i..i + |p|] == s[k + i..k + i + |p|];
    assert OccursAt(s, p, k + i);
  }

  lemma StartsWithContains(s: string, p: string)
    requires StartsWith(s, p)
    ensures Contains(s, p)
  {
    assert s[0..0 + |p|] == s[..|p|];
    assert OccursAt(s, p, 0);
  }

  /* ---------- Python's s.replace(p, "") ---------- */

  /** Python's `s.replace(p, "")`: scans left to right and deletes every
      non-overlapping occurrence of `p`; an empty `p` leaves `s` unchanged. */
  function RemoveAll(s: string, p: string): (r: string)
    ensures |r| <= |s|
    ensures !Contains(s, p) ==> r == s
    ensures p != [] && Contains(s, p) ==> |r| <= |s| - |p|
    decreases |s|
  {
    if p == [] || |s| < |p| then
      s
    else if s[..|p|] == p then
      StartsWithContains(s, p);
      RemoveAll(s[|p|..], p)
    else
      ContainsStep(s, p);
      [s[0]] + RemoveAll(s[1..], p)
  }

  /** `xs[0] + sep + xs[1] + ... + sep + xs[|xs|-1]` (Python's `sep.join(xs)`). */
  function Join(xs: seq<string>, sep: string): string
  {
    if |xs| == 0 then []
    else if |xs| == 1 then xs[0]
    else xs[0] + sep + Join(xs[1..], sep)
  }

  /** The concatenation of all strings of `xs`. */
  function Concat(xs: seq<string>): string
  {
    if xs == [] then [] else xs[0] + Concat(xs[1..])
  }

  /** Python's `s.split(p)`: the pieces of `s` between the occurrences of `p`
      found by a left-to-right scan. */
  function Pieces(s: string, p: string): (r: seq<string>)
    requires p != []
    ensures |r| >= 1
    ensures StartsWith(s, r[0])
    ensures Join(r, p) == s
    ensures forall i :: 0 <= i < |r| ==> !Contains(r[i], p)
    decreases |s|
  {
    if |s| < |p| then
      [s]
    else if s[..|p|] == p then
      var rest := Pieces(s[|p|..], p);
      assert s == p + s[|p|..];
      [[]] + rest
    else
      var rest := Pieces(s[1..], p);
      PieceHeadFree(s, p, rest[0]);
      JoinHead(s[0], rest, p);
      [[s[0]] + rest[0]] + rest[1..]
  }

  lemma ContainsStep(s: string, p: string)
    requires |s| >= 1
    requires !StartsWith(s, p)
    ensures Contains(s, p) <==> Contains(s[1..], p)
  {
    assert s == [s[0]] + s[1..];
    if Contains(s[1..], p) {
      ContainsExtend(s[0], s[1..], p);
    }
    if Contains(s, p) {
      ContainsShift(s[0], s[1..], p);
    }
  }

  lemma PieceHeadFree(s: string, p: string, piece: string)
    requires |s| >= 1 && |p| <= |s|
    requires s[..|p|] != p
    requires StartsWith(s[1..], piece)
    requires !Contains(piece, p)
    ensures StartsWith(s, [s[0]] + piece)
    ensures !Contains([s[0]] + piece, p)
  {
    var head := [s[0]] + piece;
    assert s == [s[0]] + s[1..];
    assert s[..|head|] == head;
    forall i | 0 <= i <= |head|
      ensures !OccursAt(head, p, i)
    {
      if i == 0 {
        if |p| <= |head| {
          assert head[..|p|] == s[..|p|];
        }
      } else if i + |p| <= |head| {
        assert head[i..i + |p|] == piece[i - 1..i - 1 + |p|];
        assert !OccursAt(piece, p, i - 1);
      }
    }
  }

  lemma JoinHead(c: char, rest: seq<string>, p: string)
    requires |rest| >= 1
    ensures Join([[c] + rest[0]] + rest[1..], p) == [c] + Join(rest, p)
  {
    var r := [[c] + rest[0]] + rest[1..];
    assert r[1..] == rest[1..];
  }

  /** Python's `s.replace(p, "") == "".join(s.split(p))`: removing every occurrence
      keeps exactly the pieces between them, and none of those pieces contains `p`. */
  lemma {:induction false} RemoveAllKeepsPieces(s: string, p: string)
    requires p != []
    ensures RemoveAll(s, p) == Concat(Pieces(s, p))
    ensures Join(Pieces(s, p), p) == s
    ensures forall i :: 0 <= i < |Pieces(s, p)| ==> !Contains(Pieces(s, p)[i], p)
    decreases |s|
  {
    if |s| < |p| {
      assert Concat([s]) == s + Concat([]);
    } else if s[..|p|] == p {
      RemoveAllKeepsPieces(s[|p|..], p);
      ConcatEmptyHead(Pieces(s[|p|..], p));
    } else {
      RemoveAllKeepsPieces(s[1..], p);
      ConcatHead(s[0], Pieces(s[1..], p));
    }
  }

  lemma ConcatEmptyHead(rest: seq<string>)
    ensures Concat([[]] + rest) == Concat(rest)
  {
    assert ([[]] + rest)[1..] == rest;
  }

  lemma ConcatHead(c: char, rest: seq<string>)
    requires |rest| >= 1
    ensures Concat([[c] + rest[0]] + rest[1..]) == [c] + Concat(rest)
  {
    var r := [[c] + rest[0]] + rest[1..];
    assert r[1..] == rest[1..];
    assert Concat(rest) == rest[0] + Concat(rest[1..]);
  }

  /** No occurrence of `p` can straddle the end of `a` when `p` is appended:
      the first character of `p` does not recur inside `p`. */
  predicate HeadUnique(p: string) {
    p != [] && forall i :: 1 <= i < |p| ==> p[i] != p[0]
  }

  /** For an extension such as ".h" or ".py", appending the extension and then
      removing every occurrence gives the same as removing from the bare name. */
  lemma {:induction false} RemoveAllAppended(a: string, p: string)
    requires HeadUnique(p)
    ensures RemoveAll(a + p, p) == RemoveAll(a, p)
    decreases |a|
  {
    var s := a + p;
    if |a| == 0 {
      assert s == p;
      assert s[..|p|] == p;
      assert s[|p|..] == [];
    } else if |a| >= |p| && a[..|p|] == p {
      assert s[..|p|] == p;
      assert s[|p|..] == a[|p|..] + p;
      RemoveAllAppended(a[|p|..], p);
    } else {
      if |a| < |p| {
        assert s[|a|] == p[0];
        assert s[..|p|][|a|] == s[|a|];
        assert s[..|p|] != p;
      } else {
        assert s[..|p|] == a[..|p|];
      }
      assert s[1..] == a[1..] + p;
      RemoveAllAppended(a[1..], p);
      if |a| < |p| {
        assert RemoveAll(a[1..], p) == a[1..];
        assert a == [a[0]] + a[1..];
      }
    }
  }

  lemma EndsWithContains(s: string, p: string)
    requires EndsWith(s, p)
    ensures Contains(s, p)
  {
    assert OccursAt(s, p, |s| - |p|);
  }

  /** The tools' extension stripping: when `name` ends with `ext`, every
      occurrence of `ext` is removed, not only the trailing one. */
  function StripExtension(name: string, ext: string): (r: string)
    ensures !EndsWith(name, ext) ==> r == name
    ensures ext == [] ==> r == name
    ensures ext != [] && EndsWith(name, ext) ==> |r| <= |name| - |ext|
    ensures |r| <= |name|
  {
    if EndsWith(name, ext) then
      EndsWithContains(name, ext);
      RemoveAll(name, ext)
    else
      name
  }

  /** A name that ends with the extension loses every occurrence of it: the
      result is what is left between the occurrences a left-to-right scan
      finds, and those pieces joined back with the extension give the name. */
  lemma StripExtensionPieces(name: string, ext: string)
    requires ext != [] && EndsWith(name, ext)
    ensures StripExtension(name, ext) == Concat(Pieces(name, ext))
    ensures Join(Pieces(name, ext), ext) == name
    ensures forall i :: 0 <= i < |Pieces(name, ext)| ==> !Contains(Pieces(name, ext)[i], ext)
  {
    RemoveAllKeepsPieces(name, ext);
  }

  /** A name that ends with the extension and holds no other occurrence of it
      loses exactly the trailing occurrence. */
  lemma {:induction false} StripSingleOccurrence(base: string, ext: string)
    requires HeadUnique(ext)
    requires !Contains(base, ext)
    ensures StripExtension(base + ext, ext) == base
  {
    assert (base + ext)[|base + ext| - |ext|..] == ext;
    RemoveAllAppended(base, ext);
  }

  /** Every occurrence goes, not only the trailing one: "my.py.x.py" loses
      both ".py", which a suffix strip would not do. */
  lemma RemovePyFromPy()
    ensures RemoveAll(".py", ".py") == ""
  {
    assert ".py"[3..] == "";
  }

  lemma RemovePyFromXPy()
    ensures RemoveAll("x.py", ".py") == "x"
  {
    RemovePyFromPy();
    assert "x.py"[..3][0] != ".py"[0];
    assert "x.py"[1..] == ".py";
  }

  lemma RemovePyFromDotXPy()
    ensures RemoveAll(".x.py", ".py") == ".x"
  {
    RemovePyFromXPy();
    assert ".x.py"[..3][1] != ".py"[1];
    assert ".x.py"[1..] == "x.py";
  }

  lemma RemovePyFromPyDotXPy()
    ensures RemoveAll(".py.x.py", ".py") == ".x"
  {
    RemovePyFromDotXPy();
    assert ".py.x.py"[..3] == ".py";
    assert ".py.x.py"[3..] == ".x.py";
  }

  lemma RemovePyFromYPyDotXPy()
    ensures RemoveAll("y.py.x.py", ".py") == "y.x"
  {
    RemovePyFromPyDotXPy();
    assert "y.py.x.py"[..3][0] != ".py"[0];
    assert "y.py.x.py"[1..] == ".py.x.py";
  }

  /** "my.py.x.py" ends with ".py", so both occurrences go. */
  lemma StripTwiceExample()
    ensures StripExtension("my.py.x.py", ".py") == "my.x"
  {
    RemovePyFromYPyDotXPy();
    var s := "my.py.x.py";
    assert s[..3][0] != ".py"[0];
    assert s[1..] == "y.py.x.py";
    assert s[|s| - 3..] == ".py";
  }

  /* ---------- path segments ---------- */

  /** Python's `s.split("/")[-1]`: the text after the last '/'. */
  function LastSegment(s: string): (r: string)
    ensures '/' !in r
    ensures EndsWith(s, r)
    ensures r == s || s[|s| - |r| - 1] == '/'
    ensures '/' !in s ==> r == s
    decreases |s|
  {
    if |s| == 0 then
      s
    else if s[|s| - 1] == '/' then
      []
    else
      var init := s[..|s| - 1];
      var r := LastSegment(init) + [s[|s| - 1]];
      assert s == init + [s[|s| - 1]];
      r
  }

  /** Whatever precedes a '/', the last segment lies after it. */
  lemma {:induction false} LastSegmentAfterSlash(dir: string, base: string)
    ensures LastSegment(dir + "/" + base) == LastSegment(base)
    decreases |base|
  {
    if base == [] {
      LastCharOfSlash(dir);
    } else {
      DropLastAfterSlash(dir, base);
      LastSegmentAfterSlash(dir, base[..|base| - 1]);
    }
  }

  lemma LastCharOfSlash(dir: string)
    ensures (dir + "/" + [])[|dir + "/" + []| - 1] == '/'
  {
  }

  lemma DropLastAfterSlash(dir: string, base: string)
    requires base != []
    ensures var s := dir + "/" + base;
      && s[..|s| - 1] == dir + "/" + base[..|base| - 1]
      && s[|s| - 1] == base[|base| - 1]
      && base[..|base| - 1] + [base[|base| - 1]] == base
  {
  }

  /* ---------- ASCII case mapping ---------- */

  function LowerChar(c: char): char {
    if 'A' <= c <= 'Z' then (c as int + 32) as char else c
  }

  function UpperChar(c: char): char {
    if 'a' <= c <= 'z' then (c as int - 32) as char else c
  }

  /** Python's `s.lower()`, restricted to ASCII letters. */
  function Lower(s: string): (r: string)
    ensures |r| == |s|
    ensures forall i :: 0 <= i < |s| ==> r[i] == LowerChar(s[i])
  {
    if s == [] then [] else [LowerChar(s[0])] + Lower(s[1..])
  }

  /** Python's `s.upper()`, restricted to ASCII letters. */
  function Upper(s: string): (r: string)
    ensures |r| == |s|
    ensures forall i :: 0 <= i < |s| ==> r[i] == UpperChar(s[i])
  {
    if s == [] then [] else [UpperChar(s[0])] + Upper(s[1..])
  }

  /** Upper-casing keeps every non-letter, in particular every '/', in place,
      and leaves no lower-case ASCII letter behind. */
  lemma UpperKeepsNonLetters(s: string, i: int)
    requires 0 <= i < |s|
    ensures !('a' <= s[i] <= 'z') ==> Upper(s)[i] == s[i]
    ensures !('a' <= Upper(s)[i] <= 'z')
  {
  }

  /* ---------- decimal numbers ---------- */

  predicate IsDigit(c: char) {
    '0' <= c <= '9'
  }

  function DigitChar(d: nat): (c: char)
    requires d < 10
    ensures IsDigit(c)
  {
    ('0' as int + d) as char
  }

  /** Python's `f"{n}"` for a non-negative integer. */
  function NatToString(n: nat): (r: string)
    ensures |r| >= 1
    ensures forall i :: 0 <= i < |r| ==> IsDigit(r[i])
    ensures |r| > 1 ==> r[0] != '0'
    decreases n
  {
    if n < 10 then [DigitChar(n)] else NatToString(n / 10) + [DigitChar(n % 10)]
  }

  function DigitValue(c: char): (d: nat)
    requires IsDigit(c)
    ensures d < 10
  {
    c as int - '0' as int
  }

  /** The value of a string of decimal digits. */
  function DigitsValue(s: string): nat
    requires forall i :: 0 <= i < |s| ==> IsDigit(s[i])
  {
    if s == [] then 0 else DigitsValue(s[..|s| - 1]) * 10 + DigitValue(s[|s| - 1])
  }

  /** Reading back a rendered count gives the count. */
  lemma {:induction false} NatToStringRoundTrip(n: nat)
    ensures DigitsValue(NatToString(n)) == n
    decreases n
  {
    if n >= 10 {
      NatToStringRoundTrip(n / 10);
      var s := NatToString(n);
      assert s[..|s| - 1] == NatToString(n / 10);
    }
  }

  /** Two digits with a leading zero: `strftime`'s `%d` and `%m`. */
  function Pad2(n: nat): (r: string)
    requires n < 100
    ensures |r| == 2
    ensures IsDigit(r[0]) && IsDigit(r[1])
    ensures DigitsValue(r) == n
  {
    var r := [DigitChar(n / 10), DigitChar(n % 10)];
    assert r[..1] == [DigitChar(n / 10)] && r[..1][..0] == [];
    assert DigitValue(r[0]) == n / 10 && DigitValue(r[1]) == n % 10;
    assert DigitsValue(r[..1]) == n / 10;
    r
  }

  /* ---------- lines ---------- */

  /** The index of the first '\n' in `s`, or `|s|` when there is none. */
  function NewlineIndex(s: string): (k: nat)
    ensures k <= |s|
    ensures k < |s| ==> s[k] == '\n'
    ensures forall j :: 0 <= j < k ==> s[j] != '\n'
  {
    if s == [] then 0
    else if s[0] == '\n' then 0
    else 1 + NewlineIndex(s[1..])
  }

  /** Every line followed by "\n", concatenated. */
  function Unlines(lines: seq<string>): string
  {
    if lines == [] then [] else lines[0] + "\n" + Unlines(lines[1..])
  }

  /** The lines of `s`: the text between newlines, with a final unterminated
      piece kept as a line. */
  function SplitLines(s: string): seq<string>
    decreases |s|
  {
    if s == [] then []
    else
      var k := NewlineIndex(s);
      if k == |s| then [s] else [s[..k]] + SplitLines(s[k + 1..])
  }

  lemma NewlineIndexOfLine(line: string, rest: string)
    requires '\n' !in line
    ensures NewlineIndex(line + "\n" + rest) == |line|
    decreases |line|
  {
    if line != [] {
      assert (line + "\n" + rest)[1..] == line[1..] + "\n" + rest;
      NewlineIndexOfLine(line[1..], rest);
    }
  }

  /** Rendering lines and splitting the text again gives the same lines. */
  lemma {:induction false} SplitUnlines(lines: seq<string>)
    requires forall i :: 0 <= i < |lines| ==> '\n' !in lines[i]
    ensures SplitLines(Unlines(lines)) == lines
    decreases |lines|
  {
    if lines != [] {
      var rest := Unlines(lines[1..]);
      var s := Unlines(lines);
      assert s == lines[0] + "\n" + rest;
      NewlineIndexOfLine(lines[0], rest);
      assert s[..|lines[0]|] == lines[0];
      assert s[|lines[0]| + 1..] == rest;
      SplitUnlines(lines[1..]);
    }
  }

  /** Splitting text whose first line is `line` yields `line` and then the
      lines of the remainder. */
  lemma SplitFirstLine(line: string, rest: string)
    requires '\n' !in line
    ensures SplitLines(line + "\n" + rest) == [line] + SplitLines(rest)
  {
    var s := line + "\n" + rest;
    NewlineIndexOfLine(line, rest);
    assert s[..|line|] == line;
    assert s[|line| + 1..] == rest;
  }

  /** Rendering a list with a head line puts that line first. */
  lemma UnlinesCons(first: string, tail: seq<string>)
    ensures Unlines([first] + tail) == first + "\n" + Unlines(tail)
  {
    assert ([first] + tail)[1..] == tail;
  }

  /** After its head line and newline, a rendering continues with the rest. */
  lemma UnlinesAfterHead(first: string, tail: seq<string>)
    ensures |Unlines([first] + tail)| > |first|
    ensures Unlines([first] + tail)[|first| + 1..] == Unlines(tail)
  {
    UnlinesCons(first, tail);
  }

  /** Two renderings that differ only in their head line agree after it. */
  lemma SameTailAfterHead(a: string, b: string, tail: seq<string>)
    ensures |Unlines([a] + tail)| > |a| && |Unlines([b] + tail)| > |b|
    ensures Unlines([a] + tail)[|a| + 1..] == Unlines([b] + tail)[|b| + 1..]
  {
    UnlinesAfterHead(a, tail);
    UnlinesAfterHead(b, tail);
  }

  /** A rendered list read back starts with its newline-free head line. */
  lemma SplitUnlinesCons(first: string, tail: seq<string>)
    requires '\n' !in first
    ensures SplitLines(Unlines([first] + tail)) == [first] + SplitLines(Unlines(tail))
  {
    UnlinesCons(first, tail);
    SplitFirstLine(first, Unlines(tail));
  }

  /** Rendering is a homomorphism from concatenation of line lists. */
  lemma {:induction false} UnlinesAppend(a: seq<string>, b: seq<string>)
    ensures Unlines(a + b) == Unlines(a) + Unlines(b)
    decreases |a|
  {
    if a != [] {
      assert (a + b)[1..] == a[1..] + b;
      UnlinesAppend(a[1..], b);
      calc {
        Unlines(a + b);
        a[0] + "\n" + Unlines(a[1..] + b);
        a[0] + "\n" + (Unlines(a[1..]) + Unlines(b));
        (a[0] + "\n" + Unlines(a[1..])) + Unlines(b);
      }
    } else {
      assert a + b == b;
    }
  }

  /** A rendering starts with the rendering of its leading lines. */
  lemma UnlinesStartsWithLeading(a: seq<string>, b: seq<string>)
    ensures StartsWith(Unlines(a + b), Unlines(a))
  {
    UnlinesAppend(a, b);
  }

  /** `l` is a whole line of `s`: at its start, or between two newlines. */
  predicate HasLine(s: string, l: string) {
    StartsWith(s, l + "\n") || Contains(s, "\n" + l + "\n")
  }

  /** Every rendered line is a whole line of the rendering. */
  lemma {:induction false} UnlinesHasLine(lines: seq<string>, k: nat)
    requires k < |lines|
    ensures HasLine(Unlines(lines), lines[k])
  {
    var s := Unlines(lines);
    var l := lines[k];
    var before := Unlines(lines[..k]);
    var after := Unlines(lines[k + 1..]);
    assert lines == lines[..k] + lines[k..];
    UnlinesAppend(lines[..k], lines[k..]);
    assert lines[k..][1..] == lines[k + 1..];
    assert s == before + (l + "\n" + after);
    if k == 0 {
      assert s[..|l + "\n"|] == l + "\n";
    } else {
      UnlinesEndsInNewline(lines[..k]);
      var i := |before| - 1;
      assert s[i..i + |"\n" + l + "\n"|] == "\n" + l + "\n";
      assert OccursAt(s, "\n" + l + "\n", i);
    }
  }

  /** A line of the middle block of a rendering is a whole line of it. */
  lemma UnlinesHasMiddleLine(a: seq<string>, b: seq<string>, c: seq<string>, k: nat)
    requires k < |b|
    ensures HasLine(Unlines(a + b + c), b[k])
  {
    IndexMiddle(a, b, c, k);
    UnlinesHasLine(a + b + c, |a| + k);
  }

  /** A rendering starts with its first line. */
  lemma UnlinesStartsWithFirst(lines: seq<string>)
    requires lines != []
    ensures StartsWith(Unlines(lines), lines[0] + "\n")
  {
    UnlinesCons(lines[0], lines[1..]);
    assert [lines[0]] + lines[1..] == lines;
  }

  /** A rendering ends with its last line and a newline. */
  lemma UnlinesEndsWithLast(lines: seq<string>)
    requires lines != []
    ensures EndsWith(Unlines(lines), lines[|lines| - 1] + "\n")
  {
    var n := |lines| - 1;
    assert lines == lines[..n] + [lines[n]];
    UnlinesAppend(lines[..n], [lines[n]]);
    UnlinesCons(lines[n], []);
  }

  lemma {:induction false} UnlinesEndsInNewline(lines: seq<string>)
    requires lines != []
    ensures |Unlines(lines)| > 0 && Unlines(lines)[|Unlines(lines)| - 1] == '\n'
    decreases |lines|
  {
    if |lines| > 1 {
      UnlinesEndsInNewline(lines[1..]);
    }
  }

  /** A line break as text-mode reading sees it: "\n" or "\r" (a "\r\n"
      pair starts with "\r"). */
  predicate IsBreak(c: char) {
    c == '\n' || c == '\r'
  }

  predicate Breakless(s: string) {
    forall j :: 0 <= j < |s| ==> !IsBreak(s[j])
  }

  /** Python's `f.readline()` on a file opened in text mode and holding `s`:
      with universal newlines "\r\n", "\r" and "\n" each read as "\n", so
      the result is the text before the first break followed by "\n", or all
      of `s` when it has no break. */
  function ReadLine(s: string): (r: string)
    ensures |r| <= |s|
    ensures Breakless(s) ==> r == s
    ensures !Breakless(s) ==>
      && |r| >= 1
      && r == s[..|r| - 1] + "\n"
      && IsBreak(s[|r| - 1])
      && Breakless(s[..|r| - 1])
    decreases |s|
  {
    if s == [] then []
    else if IsBreak(s[0]) then "\n"
    else
      var t := ReadLine(s[1..]);
      ReadLineCons(s, t);
      [s[0]] + t
  }

  /** A line that does not start with a break is its first character
      followed by the line read from the rest. */
  lemma ReadLineCons(s: string, t: string)
    requires s != [] && !IsBreak(s[0])
    requires |t| <= |s| - 1
    requires Breakless(s[1..]) ==> t == s[1..]
    requires !Breakless(s[1..]) ==>
      && |t| >= 1
      && t == s[1..][..|t| - 1] + "\n"
      && IsBreak(s[1..][|t| - 1])
      && Breakless(s[1..][..|t| - 1])
    ensures Breakless(s) ==> [s[0]] + t == s
    ensures !Breakless(s) ==>
      var r := [s[0]] + t;
      && |r| >= 1
      && r == s[..|r| - 1] + "\n"
      && IsBreak(s[|r| - 1])
      && Breakless(s[..|r| - 1])
  {
    var u := s[1..];
    if Breakless(s) {
      forall j | 0 <= j < |u| ensures !IsBreak(u[j]) {
        assert u[j] == s[j + 1];
      }
      assert [s[0]] + u == s;
    } else {
      assert !Breakless(u);
      var n := |t| - 1;
      var head := s[..n + 1];
      assert head == [s[0]] + u[..n];
      assert s[n + 1] == u[n];
      forall j | 0 <= j < |head| ensures !IsBreak(head[j]) {
        if j > 0 {
          assert head[j] == u[..n][j - 1];
        }
      }
    }
  }
}
