// Reading the shared-library dependencies of an image out of the text that
// `ldd <path>` prints: the output is cut into lines, and a line such as
//     libc.so.6 => /lib/x86_64-linux-gnu/libc.so.6 (0x00007f...)
// contributes the text between "=> " and the next space.

module Ldd {
  import opened ElfFormat

  // ---------------------------------------------------------------------
  // split_string (utils), with a one-character delimiter
  // ---------------------------------------------------------------------

  /** The pieces of `s` between occurrences of `delim`, in order, empty pieces included. */
  function SplitString(s: string, delim: char): (r: seq<string>)
    ensures |r| >= 1
  {
    if s == [] then [""]
    else
      var rest := SplitString(s[1..], delim);
      if s[0] == delim then [""] + rest
      else [[s[0]] + rest[0]] + rest[1..]
  }

  /** How many times `c` occurs in `s`. */
  function Occurrences(s: string, c: char): nat
  {
    if s == [] then 0 else (if s[0] == c then 1 else 0) + Occurrences(s[1..], c)
  }

  /** No piece holds the delimiter, and there is one piece more than there are delimiters. */
  lemma {:induction false} SplitStringPieces(s: string, delim: char)
    ensures forall k :: 0 <= k < |SplitString(s, delim)| ==> delim !in SplitString(s, delim)[k]
    ensures |SplitString(s, delim)| == Occurrences(s, delim) + 1
  {
    if s != [] {
      SplitStringPieces(s[1..], delim);
    }
  }

  /** The pieces put back together with `delim` between them. */
  function Join(pieces: seq<string>, delim: char): string
    requires |pieces| >= 1
  {
    if |pieces| == 1 then pieces[0] else pieces[0] + [delim] + Join(pieces[1..], delim)
  }

  /** Splitting loses nothing: joining the pieces gives the text back. */
  lemma {:induction false} JoinSplit(s: string, delim: char)
    ensures Join(SplitString(s, delim), delim) == s
  {
    if s != [] {
      var rest := SplitString(s[1..], delim);
      JoinSplit(s[1..], delim);
      if s[0] == delim {
        assert SplitString(s, delim) == [""] + rest;
        assert ([""] + rest)[1..] == rest;
      } else {
        var r := SplitString(s, delim);
        assert r == [[s[0]] + rest[0]] + rest[1..];
        if |rest| == 1 {
          assert r == [[s[0]] + rest[0]];
        } else {
          assert r[1..] == rest[1..];
          assert Join(rest, delim) == rest[0] + [delim] + Join(rest[1..], delim);
        }
      }
    }
  }

  // ---------------------------------------------------------------------
  // std::string::find
  // ---------------------------------------------------------------------

  predicate OccursAt(s: string, pat: string, j: nat)
  {
    j + |pat| <= |s| && s[j..j + |pat|] == pat
  }

  /** `s.find(pat, from)`: the first occurrence of `pat` at or after `from`. */
  function Find(s: string, pat: string, from: nat): (r: Option<nat>)
    ensures r.Some? ==> from <= r.value && r.value + |pat| <= |s|
    decreases |s| - from
  {
    if from + |pat| > |s| then None
    else if OccursAt(s, pat, from) then Some(from)
    else Find(s, pat, from + 1)
  }

  /**
   * `find` returns the first occurrence at or after `from`, and npos
   * exactly when there is none.
   */
  lemma {:induction false} FindFirst(s: string, pat: string, from: nat)
    ensures var r := Find(s, pat, from);
      (r.Some? ==> OccursAt(s, pat, r.value) && forall j :: from <= j < r.value ==> !OccursAt(s, pat, j)) &&
      (r.None? <==> forall j :: from <= j ==> !OccursAt(s, pat, j))
    decreases |s| - from
  {
    if from + |pat| <= |s| && !OccursAt(s, pat, from) {
      FindFirst(s, pat, from + 1);
    }
  }

  /** Looking for one character: the result holds it, and nothing between `from` and the result does. */
  lemma {:induction false} FindChar(s: string, c: char, from: nat)
    ensures var r := Find(s, [c], from);
      (r.Some? ==> s[r.value] == c && forall j :: from <= j < r.value ==> s[j] != c) &&
      (r.None? ==> forall j :: from <= j < |s| ==> s[j] != c)
    decreases |s| - from
  {
    if from < |s| {
      assert OccursAt(s, [c], from) <==> s[from] == c by {
        assert s[from..from + 1] == [s[from]];
      }
      if s[from] != c {
        FindChar(s, c, from + 1);
      }
    }
  }

  // ---------------------------------------------------------------------
  // The dependency on one line
  // ---------------------------------------------------------------------

  const ARROW: string := "=> "

  /** The text between the first "=> " of `line` and the next space after it. */
  function DependencyOf(line: string): Option<string>
  {
    match Find(line, ARROW, 0)
    case None => None
    case Some(p) =>
      match Find(line, " ", p + |ARROW|)
      case None => None
      case Some(q) => Some(line[p + |ARROW|..q])
  }

  predicate SpaceAt(line: string, q: nat)
  {
    q < |line| && line[q] == ' '
  }

  /** A line yields a dependency exactly when it has "=> " with a space somewhere after it. */
  lemma DependencyWhenArrowThenSpace(line: string)
    ensures DependencyOf(line).Some? <==>
            exists p: nat :: OccursAt(line, ARROW, p) && exists q: nat :: p + |ARROW| <= q && SpaceAt(line, q)
  {
    FindFirst(line, ARROW, 0);
    if Find(line, ARROW, 0).Some? {
      var p := Find(line, ARROW, 0).value;
      FindChar(line, ' ', p + 3);
      if Find(line, " ", p + 3).Some? {
        var q := Find(line, " ", p + 3).value;
        assert OccursAt(line, ARROW, p) && p + 3 <= q && SpaceAt(line, q);
      } else {
        forall p': nat, q: nat | OccursAt(line, ARROW, p') && p' + 3 <= q
          ensures !SpaceAt(line, q)
        {
          assert p <= p';
        }
      }
    }
  }

  /** `p` is the first "=> " of `line`, and `d` follows it up to a space and holds none. */
  predicate DependencyAt(line: string, p: nat, d: string)
  {
    OccursAt(line, ARROW, p) && (forall j: nat :: j < p ==> !OccursAt(line, ARROW, j)) &&
    p + |ARROW| + |d| < |line| && line[p + |ARROW|..p + |ARROW| + |d|] == d &&
    line[p + |ARROW| + |d|] == ' ' && ' ' !in d
  }

  /**
   * The dependency starts right after the first "=> ", holds no space and
   * is followed by one.
   */
  lemma DependencyBetweenArrowAndSpace(line: string)
    requires DependencyOf(line).Some?
    ensures exists p: nat :: DependencyAt(line, p, DependencyOf(line).value)
  {
    FindFirst(line, ARROW, 0);
    var p := Find(line, ARROW, 0).value;
    FindChar(line, ' ', p + 3);
    var q := Find(line, " ", p + 3).value;
    var d := line[p + 3..q];
    assert DependencyOf(line).value == d;
    assert forall i :: 0 <= i < |d| ==> d[i] == line[p + 3 + i];
    assert DependencyAt(line, p, d);
  }

  /** `pat` does not start at `j` when one of its characters differs there. */
  lemma Mismatch(s: string, pat: string, j: nat, i: nat)
    requires j + |pat| <= |s| && i < |pat| && s[j + i] != pat[i]
    ensures !OccursAt(s, pat, j)
  {
    assert s[j..j + |pat|][i] == s[j + i];
  }

  /** A typical line names the resolved path of the library. */
  lemma ResolvedLibrary()
    ensures DependencyOf("c => /c (0)") == Some("/c")
  {
    var line := "c => /c (0)";
    Mismatch(line, ARROW, 0, 0);
    Mismatch(line, ARROW, 1, 0);
    assert line[2..5] == ARROW;
    assert Find(line, ARROW, 0) == Some(2);
    Mismatch(line, " ", 5, 0);
    Mismatch(line, " ", 6, 0);
    assert line[7..8] == " ";
    assert Find(line, " ", 5) == Some(7);
    assert line[5..7] == "/c";
  }

  /**
   * The vDSO line has nothing between "=> " and the next space; it yields
   * an empty dependency rather than none.
   */
  lemma VdsoLine()
    ensures DependencyOf("v =>  (0)") == Some("")
  {
    var line := "v =>  (0)";
    Mismatch(line, ARROW, 0, 0);
    Mismatch(line, ARROW, 1, 0);
    assert line[2..5] == ARROW;
    assert Find(line, ARROW, 0) == Some(2);
    assert line[5..6] == " ";
    assert Find(line, " ", 5) == Some(5);
    assert line[5..5] == "";
  }

  /** The dynamic loader's own line has no "=> " and yields nothing. */
  lemma LoaderLine()
    ensures DependencyOf("/ld (0)") == None
  {
    var line := "/ld (0)";
    forall j: nat | j + |ARROW| <= |line|
      ensures !OccursAt(line, ARROW, j)
    {
      if line[j] == '=' {
        Mismatch(line, ARROW, j, 1);
      } else {
        Mismatch(line, ARROW, j, 0);
      }
    }
  }

  // ---------------------------------------------------------------------
  // All lines
  // ---------------------------------------------------------------------

  /** The dependencies of `lines`, in line order. */
  function DependenciesOf(lines: seq<string>): seq<string>
  {
    if lines == [] then []
    else
      var before := DependenciesOf(lines[..|lines| - 1]);
      match DependencyOf(lines[|lines| - 1])
      case None => before
      case Some(d) => before + [d]
  }

  /** One more line adds its dependency, if it has one. */
  lemma DependenciesStep(lines: seq<string>, j: nat)
    requires j < |lines|
    ensures DependenciesOf(lines[..j + 1]) ==
            DependenciesOf(lines[..j]) + (if DependencyOf(lines[j]).Some? then [DependencyOf(lines[j]).value] else [])
  {
    assert lines[..j + 1][..j] == lines[..j];
  }

  /** Dependencies follow line order: the output for more lines extends the output for fewer. */
  lemma {:induction false} DependenciesAppend(a: seq<string>, b: seq<string>)
    ensures DependenciesOf(a + b) == DependenciesOf(a) + DependenciesOf(b)
    decreases |b|
  {
    if b != [] {
      var b' := b[..|b| - 1];
      assert (a + b)[..|a + b| - 1] == a + b';
      DependenciesAppend(a, b');
    } else {
      assert a + b == a;
    }
  }

  /** Lines without a dependency contribute nothing, so there are at most as many as lines. */
  lemma {:induction false} DependenciesAtMostLines(lines: seq<string>)
    ensures |DependenciesOf(lines)| <= |lines|
  {
    if lines != [] {
      DependenciesAtMostLines(lines[..|lines| - 1]);
    }
  }
}
