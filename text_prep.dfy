/**
 * The two text helpers of api/nlp.py that run before annotation: the upload
 * filter `allowed_file` and the regular-expression clean-up `clean`.
 * Each of the four fixed patterns of `clean` is modelled by a dedicated
 * left-to-right scanner with the leftmost, greedy, non-overlapping semantics
 * of `re.sub`.
 */
module TextPrep {
  import opened Wrappers
  import opened Strings

  // ---------------------------------------------------------------------------
  // allowed_file
  // ---------------------------------------------------------------------------

  /** The extensions accepted for upload. */
  const AllowedExtensions: set<string> := {"pdf"}

  /** Position of the last '.' in `s`, if any. */
  function LastDot(s: string): (r: Option<nat>)
    ensures r.Some? ==> r.value < |s| && s[r.value] == '.'
    ensures r.Some? ==> forall j :: r.value < j < |s| ==> s[j] != '.'
    ensures r.None? <==> '.' !in s
  {
    if |s| == 0 then None
    else if s[|s| - 1] == '.' then Some(|s| - 1)
    else LastDot(s[..|s| - 1])
  }

  /** `filename.rsplit('.', 1)[-1]`: the text after the last '.', or the whole name. */
  function Extension(filename: string): (ext: string)
    ensures |ext| <= |filename| && ext == filename[|filename| - |ext|..]
    ensures '.' !in ext
    ensures '.' in filename ==> |ext| < |filename| && filename[|filename| - |ext| - 1] == '.'
    ensures '.' !in filename ==> ext == filename
  {
    match LastDot(filename)
    case None => filename
    case Some(i) => filename[i + 1..]
  }

  /** `allowed_file`: the name has a '.' and its extension lower-cases to an allowed one. */
  predicate AllowedFile(filename: string)
  {
    '.' in filename && Lower(Extension(filename)) in AllowedExtensions
  }

  /**
   * A name is allowed exactly when its last four characters are a '.'
   * followed by "pdf" in any mix of upper and lower case.
   */
  lemma AllowedFileIff(filename: string)
    ensures AllowedFile(filename) <==>
      |filename| >= 4 && filename[|filename| - 4] == '.' && Lower(filename[|filename| - 3..]) == "pdf"
  {
    var n := |filename|;
    if AllowedFile(filename) {
      var ext := Extension(filename);
      assert |Lower(ext)| == 3;
      assert filename[n - 3..] == ext;
    }
    if n >= 4 && filename[n - 4] == '.' && Lower(filename[n - 3..]) == "pdf" {
      var tail := filename[n - 3..];
      assert Lower(tail)[0] == 'p' && Lower(tail)[1] == 'd' && Lower(tail)[2] == 'f' by {
        assert "pdf"[0] == 'p' && "pdf"[1] == 'd' && "pdf"[2] == 'f';
      }
      assert forall j :: n - 4 < j < n ==> filename[j] == tail[j - (n - 3)];
      assert '.' !in tail;
      var ext := Extension(filename);
      assert '.' in filename;
      assert |ext| == 3;
      assert ext == tail;
    }
  }

  /** A ".pdf" name passes the upload filter whatever the case of its extension. */
  lemma AllowedFileAccepts()
    ensures AllowedFile("report.PDF")
  {
    AllowedFileIff("report.PDF");
    assert "report.PDF"[7..] == "PDF";
    assert Lower("PDF") == "pdf";
  }

  /** A name without a dot, or whose last extension is not "pdf", is refused. */
  lemma AllowedFileRejects()
    ensures !AllowedFile("pdf")
    ensures !AllowedFile("a.pdf.txt")
  {
    assert !AllowedFile("pdf") by {
      AllowedFileIff("pdf");
    }
    assert !AllowedFile("a.pdf.txt") by {
      AllowedFileIff("a.pdf.txt");
      assert "a.pdf.txt"[6..] == "txt";
      assert Lower("txt")[0] == 't';
    }
  }

  // ---------------------------------------------------------------------------
  // clean
  // ---------------------------------------------------------------------------

  /** Length of the run of `c` at the start of `s`. */
  function LeadingRun(s: string, c: char): (n: nat)
    ensures n <= |s|
    ensures forall i :: 0 <= i < n ==> s[i] == c
    ensures n < |s| ==> s[n] != c
  {
    if |s| > 0 && s[0] == c then 1 + LeadingRun(s[1..], c) else 0
  }

  /** Length of the run of ASCII digits at the start of `s`. */
  function LeadingDigits(s: string): (n: nat)
    ensures n <= |s|
    ensures forall i :: 0 <= i < n ==> IsDigit(s[i])
    ensures n < |s| ==> !IsDigit(s[n])
  {
    if |s| > 0 && IsDigit(s[0]) then 1 + LeadingDigits(s[1..]) else 0
  }

  /** `s` with every occurrence of `c` deleted. */
  function Without(s: string, c: char): string
  {
    if |s| == 0 then "" else (if s[0] == c then "" else [s[0]]) + Without(s[1..], c)
  }

  /** No two adjacent characters of `s` are both `c`. */
  predicate NoDoubled(s: string, c: char)
  {
    forall i :: 0 <= i < |s| - 1 ==> !(s[i] == c && s[i + 1] == c)
  }

  lemma {:induction false} WithoutSkipsRun(s: string, c: char, n: nat)
    requires n <= |s|
    requires forall i :: 0 <= i < n ==> s[i] == c
    ensures Without(s, c) == Without(s[n..], c)
  {
    if n > 0 {
      WithoutSkipsRun(s[1..], c, n - 1);
      assert s[1..][n - 1..] == s[n..];
    }
  }

  lemma NoDoubledCons(x: char, t: string, c: char)
    requires NoDoubled(t, c)
    requires x != c || |t| == 0 || t[0] != c
    ensures NoDoubled([x] + t, c)
  {
    var s := [x] + t;
    forall i | 0 <= i < |s| - 1 ensures !(s[i] == c && s[i + 1] == c) {
      if i > 0 { assert s[i] == t[i - 1] && s[i + 1] == t[i]; }
    }
  }

  /** `re.sub(r'[.]{2,}', '', text)`: every run of two or more dots is deleted. */
  function DropDotRuns(s: string): (r: string)
    decreases |s|
  {
    if |s| == 0 then ""
    else if s[0] == '.' then
      var n := LeadingRun(s, '.');
      (if n >= 2 then "" else ".") + DropDotRuns(s[n..])
    else [s[0]] + DropDotRuns(s[1..])
  }

  /**
   * The dot clean-up deletes every dot that has a dot beside it and keeps
   * every other character, in order; so no two dots are adjacent afterwards,
   * and only dots were deleted.
   */
  lemma {:induction false} DropDotRunsSpec(s: string)
    ensures DropDotRuns(s) == KeptDots(s, 0)
    ensures NoDoubled(DropDotRuns(s), '.')
    ensures Without(DropDotRuns(s), '.') == Without(s, '.')
    decreases |s|
  {
    DropDotRunsFrom(s, 0);
    assert s[0..] == s;
    if |s| > 0 {
      var r := DropDotRuns(s);
      if s[0] == '.' {
        var n := LeadingRun(s, '.');
        DropDotRunsSpec(s[n..]);
        WithoutSkipsRun(s, '.', n);
        if n == 1 {
          if |s| > 1 { assert DropDotRuns(s[1..])[0] == s[1]; }
          NoDoubledCons('.', DropDotRuns(s[1..]), '.');
          assert Without(r, '.') == Without(DropDotRuns(s[1..]), '.') by {
            assert r == "." + DropDotRuns(s[1..]);
            assert r[1..] == DropDotRuns(s[1..]);
          }
        } else {
          assert r == DropDotRuns(s[n..]);
        }
      } else {
        DropDotRunsSpec(s[1..]);
        NoDoubledCons(s[0], DropDotRuns(s[1..]), '.');
        assert r[1..] == DropDotRuns(s[1..]);
      }
    }
  }

  /**
   * Position `i` of `s` survives the dot clean-up: it is not a dot, or it is
   * a dot with no dot on either side (a run of length one).
   */
  predicate DotKept(s: string, i: nat)
  {
    i < |s| && (s[i] != '.' || ((i == 0 || s[i - 1] != '.') && (i + 1 == |s| || s[i + 1] != '.')))
  }

  /** The characters of `s` from position `i` on that `DotKept` keeps, in order. */
  function KeptDots(s: string, i: nat): string
    decreases |s| - i
  {
    if i >= |s| then "" else (if DotKept(s, i) then [s[i]] else "") + KeptDots(s, i + 1)
  }

  lemma {:induction false} KeptDotsSkip(s: string, i: nat, j: nat)
    requires i <= j <= |s|
    requires forall k :: i <= k < j ==> !DotKept(s, k)
    ensures KeptDots(s, i) == KeptDots(s, j)
    decreases j - i
  {
    if i < j {
      KeptDotsSkip(s, i + 1, j);
    }
  }

  /** From a position that is not inside a run of dots, the clean-up keeps exactly the `DotKept` positions. */
  lemma {:induction false} DropDotRunsFrom(s: string, i: nat)
    requires i <= |s|
    requires i == 0 || i == |s| || s[i - 1] != '.' || s[i] != '.'
    ensures DropDotRuns(s[i..]) == KeptDots(s, i)
    decreases |s| - i, 1
  {
    if i == |s| {
      DropDotRunsEnd(s);
    } else if s[i] == '.' {
      DotRunFrom(s, i);
    } else {
      NonDotStep(s, i);
      DropDotRunsFrom(s, i + 1);
    }
  }

  /** The case of `DropDotRunsFrom` where a run of dots starts at `i`. */
  lemma {:induction false} DotRunFrom(s: string, i: nat)
    requires i < |s| && s[i] == '.' && (i == 0 || s[i - 1] != '.')
    ensures DropDotRuns(s[i..]) == KeptDots(s, i)
    decreases |s| - i, 0
  {
    var n := DotRunStep(s, i);
    DropDotRunsFrom(s, i + n);
  }

  lemma DropDotRunsEnd(s: string)
    ensures DropDotRuns(s[|s|..]) == KeptDots(s, |s|)
  {
    assert s[|s|..] == "";
  }

  /** Two texts made of the same first piece and equal remainders are equal. */
  lemma SamePieces(x: string, y: string, p: string, u: string, v: string)
    requires x == p + u && y == p + v && u == v
    ensures x == y
  {
  }

  /** A character other than a dot is kept by the clean-up and by `KeptDots`. */
  lemma NonDotStep(s: string, i: nat)
    requires i < |s| && s[i] != '.'
    ensures DropDotRuns(s[i + 1..]) == KeptDots(s, i + 1) ==> DropDotRuns(s[i..]) == KeptDots(s, i)
  {
    assert s[i..][1..] == s[i + 1..];
    assert DropDotRuns(s[i..]) == [s[i]] + DropDotRuns(s[i + 1..]);
    assert DotKept(s, i);
    assert KeptDots(s, i) == [s[i]] + KeptDots(s, i + 1);
  }

  /**
   * The run of `n` dots at `i` yields the same piece in the clean-up and in
   * `KeptDots`: one dot when `n` is one, nothing otherwise.
   */
  lemma DotRunStep(s: string, i: nat) returns (n: nat)
    requires i < |s| && s[i] == '.' && (i == 0 || s[i - 1] != '.')
    ensures 0 < n && i + n <= |s| && (i + n == |s| || s[i + n] != '.')
    ensures DropDotRuns(s[i + n..]) == KeptDots(s, i + n) ==> DropDotRuns(s[i..]) == KeptDots(s, i)
  {
    var t := s[i..];
    n := LeadingRun(t, '.');
    var piece := if n >= 2 then "" else ".";
    assert n < |t| ==> t[n] == s[i + n];
    assert DropDotRuns(t) == piece + DropDotRuns(s[i + n..]) by {
      DropDotRunsAtDot(t);
      assert t[n..] == s[i + n..];
    }
    assert KeptDots(s, i) == piece + KeptDots(s, i + n) by {
      forall k | i <= k < i + n ensures s[k] == '.' {
        assert s[k] == t[k - i];
      }
      DotRunKept(s, i, n);
    }
    if DropDotRuns(s[i + n..]) == KeptDots(s, i + n) {
      SamePieces(DropDotRuns(t), KeptDots(s, i), piece, DropDotRuns(s[i + n..]), KeptDots(s, i + n));
    }
  }

  lemma DropDotRunsAtDot(t: string)
    requires |t| > 0 && t[0] == '.'
    ensures DropDotRuns(t) == (if LeadingRun(t, '.') >= 2 then "" else ".") + DropDotRuns(t[LeadingRun(t, '.')..])
  {
  }

  /** A whole run of `n` dots at `i` contributes one dot when `n` is one and nothing otherwise. */
  lemma DotRunKept(s: string, i: nat, n: nat)
    requires 0 < n && i + n <= |s| && (i == 0 || s[i - 1] != '.')
    requires forall k :: i <= k < i + n ==> s[k] == '.'
    requires i + n == |s| || s[i + n] != '.'
    ensures KeptDots(s, i) == (if n >= 2 then "" else ".") + KeptDots(s, i + n)
  {
    if n >= 2 {
      forall k | i <= k < i + n ensures !DotKept(s, k) {
        if k + 1 < i + n {
          assert s[k + 1] == '.';
        } else {
          assert s[k - 1] == '.';
        }
      }
      KeptDotsSkip(s, i, i + n);
    } else {
      assert DotKept(s, i);
      assert KeptDots(s, i) == [s[i]] + KeptDots(s, i + 1);
    }
  }

  /** Text with no adjacent dots is left unchanged, so the step is idempotent. */
  lemma {:induction false} DropDotRunsFixes(s: string)
    requires NoDoubled(s, '.')
    ensures DropDotRuns(s) == s
    decreases |s|
  {
    if |s| > 0 {
      assert NoDoubled(s[1..], '.');
      DropDotRunsFixes(s[1..]);
      if s[0] == '.' {
        assert LeadingRun(s, '.') == 1 by {
          if |s| > 1 { assert s[1] != '.'; }
        }
      }
    }
  }

  /** `re.sub(r'[ ]+', ' ', text)`: every run of spaces becomes one space. */
  function CollapseSpaces(s: string): (r: string)
    decreases |s|
  {
    if |s| == 0 then ""
    else if s[0] == ' ' then " " + CollapseSpaces(s[LeadingRun(s, ' ')..])
    else [s[0]] + CollapseSpaces(s[1..])
  }

  /**
   * Collapsing keeps the first space of every run and every other
   * character, in order; so no two spaces are adjacent afterwards, and only
   * spaces were removed.
   */
  lemma {:induction false} CollapseSpacesSpec(s: string)
    ensures CollapseSpaces(s) == KeptSpaces(s, 0)
    ensures NoDoubled(CollapseSpaces(s), ' ')
    ensures Without(CollapseSpaces(s), ' ') == Without(s, ' ')
    decreases |s|
  {
    CollapseSpacesFrom(s, 0);
    assert s[0..] == s;
    if |s| > 0 {
      var r := CollapseSpaces(s);
      if s[0] == ' ' {
        var n := LeadingRun(s, ' ');
        var rest := CollapseSpaces(s[n..]);
        CollapseSpacesSpec(s[n..]);
        WithoutSkipsRun(s, ' ', n);
        if n < |s| { assert rest[0] == s[n]; }
        NoDoubledCons(' ', rest, ' ');
        assert r[1..] == rest;
      } else {
        CollapseSpacesSpec(s[1..]);
        NoDoubledCons(s[0], CollapseSpaces(s[1..]), ' ');
        assert r[1..] == CollapseSpaces(s[1..]);
      }
    }
  }

  /** Position `i` of `s` survives collapsing: it is not a space, or it starts a run of spaces. */
  predicate SpaceKept(s: string, i: nat)
  {
    i < |s| && (s[i] != ' ' || i == 0 || s[i - 1] != ' ')
  }

  /** The characters of `s` from position `i` on that `SpaceKept` keeps, in order. */
  function KeptSpaces(s: string, i: nat): string
    decreases |s| - i
  {
    if i >= |s| then "" else (if SpaceKept(s, i) then [s[i]] else "") + KeptSpaces(s, i + 1)
  }

  lemma {:induction false} KeptSpacesSkip(s: string, i: nat, j: nat)
    requires i <= j <= |s|
    requires forall k :: i <= k < j ==> !SpaceKept(s, k)
    ensures KeptSpaces(s, i) == KeptSpaces(s, j)
    decreases j - i
  {
    if i < j {
      KeptSpacesSkip(s, i + 1, j);
    }
  }

  /** From a position that is not inside a run of spaces, collapsing keeps exactly the `SpaceKept` positions. */
  lemma {:induction false} CollapseSpacesFrom(s: string, i: nat)
    requires i <= |s|
    requires i == 0 || i == |s| || s[i - 1] != ' ' || s[i] != ' '
    ensures CollapseSpaces(s[i..]) == KeptSpaces(s, i)
    decreases |s| - i
  {
    if i < |s| {
      if s[i] == ' ' {
        var n := SpaceRunStep(s, i);
        CollapseSpacesFrom(s, i + n);
        SamePieces(CollapseSpaces(s[i..]), KeptSpaces(s, i), " ", CollapseSpaces(s[i + n..]), KeptSpaces(s, i + n));
      } else {
        NonSpaceStep(s, i);
        CollapseSpacesFrom(s, i + 1);
        SamePieces(CollapseSpaces(s[i..]), KeptSpaces(s, i), [s[i]], CollapseSpaces(s[i + 1..]), KeptSpaces(s, i + 1));
      }
    } else {
      assert s[i..] == "";
    }
  }

  /** A character other than a space is kept by collapsing and by `KeptSpaces`. */
  lemma NonSpaceStep(s: string, i: nat)
    requires i < |s| && s[i] != ' '
    ensures CollapseSpaces(s[i..]) == [s[i]] + CollapseSpaces(s[i + 1..])
    ensures KeptSpaces(s, i) == [s[i]] + KeptSpaces(s, i + 1)
  {
    assert s[i..][1..] == s[i + 1..];
  }

  /** The run of `n` spaces at `i` yields one space in both the collapsed text and `KeptSpaces`. */
  lemma SpaceRunStep(s: string, i: nat) returns (n: nat)
    requires i < |s| && s[i] == ' ' && (i == 0 || s[i - 1] != ' ')
    ensures 0 < n && i + n <= |s| && (i + n == |s| || s[i + n] != ' ')
    ensures CollapseSpaces(s[i..]) == " " + CollapseSpaces(s[i + n..])
    ensures KeptSpaces(s, i) == " " + KeptSpaces(s, i + n)
  {
    var t := s[i..];
    n := LeadingRun(t, ' ');
    assert n < |t| ==> t[n] == s[i + n];
    assert CollapseSpaces(t) == " " + CollapseSpaces(s[i + n..]) by {
      assert t[n..] == s[i + n..];
    }
    forall k | i < k < i + n ensures !SpaceKept(s, k) {
      assert s[k] == t[k - i] && s[k - 1] == t[k - 1 - i];
    }
    KeptSpacesSkip(s, i + 1, i + n);
    assert SpaceKept(s, i);
    assert [s[i]] == " ";
    SamePieces(KeptSpaces(s, i), " " + KeptSpaces(s, i + n), " ", KeptSpaces(s, i + 1), KeptSpaces(s, i + n));
  }

  /** Text with no adjacent spaces is left unchanged, so the step is idempotent. */
  lemma {:induction false} CollapseSpacesFixes(s: string)
    requires NoDoubled(s, ' ')
    ensures CollapseSpaces(s) == s
    decreases |s|
  {
    if |s| > 0 {
      assert NoDoubled(s[1..], ' ');
      CollapseSpacesFixes(s[1..]);
      if s[0] == ' ' {
        assert LeadingRun(s, ' ') == 1 by {
          if |s| > 1 { assert s[1] != ' '; }
        }
      }
    }
  }

  /** `cid:` followed by at least one ASCII digit starts at position `i` of `s`. */
  predicate CidAt(s: string, i: nat)
  {
    i + 4 < |s| && s[i] == 'c' && s[i + 1] == 'i' && s[i + 2] == 'd' && s[i + 3] == ':' && IsDigit(s[i + 4])
  }

  /** End of the match at `i`: `\d+` is greedy, so the match takes every digit after `cid:`. */
  function MatchEnd(s: string, i: nat): (e: nat)
    requires CidAt(s, i)
    ensures i + 4 < e <= |s|
    ensures forall k :: i + 4 <= k < e ==> IsDigit(s[k])
    ensures e < |s| ==> !IsDigit(s[e])
  {
    var n := LeadingDigits(s[i + 4..]);
    assert forall k :: i + 4 <= k < i + 4 + n ==> s[k] == s[i + 4..][k - i - 4];
    i + 4 + n
  }

  /** `re.sub(r'cid:\d+', '\n', text)`, with `\d` read as the ASCII digits. */
  function ReplaceCid(s: string): (r: string)
    decreases |s|
  {
    if CidAt(s, 0) then "\n" + ReplaceCid(s[MatchEnd(s, 0)..])
    else if |s| == 0 then ""
    else [s[0]] + ReplaceCid(s[1..])
  }

  /** Where the output of `ReplaceCid` shows no newline, it copies its input. */
  lemma {:induction false} ReplaceCidCopies(s: string, k: nat)
    requires k <= |ReplaceCid(s)|
    requires forall j :: 0 <= j < k ==> ReplaceCid(s)[j] != '\n'
    ensures k <= |s| && ReplaceCid(s)[..k] == s[..k]
    decreases k
  {
    if k > 0 {
      var r := ReplaceCid(s);
      assert r[0] != '\n';
      assert !CidAt(s, 0) && |s| > 0;
      assert r == [s[0]] + ReplaceCid(s[1..]);
      forall j | 0 <= j < k - 1 ensures ReplaceCid(s[1..])[j] != '\n' {
        assert ReplaceCid(s[1..])[j] == r[j + 1];
      }
      ReplaceCidCopies(s[1..], k - 1);
    }
  }

  lemma CidAtShift(x: char, t: string, i: nat)
    ensures CidAt([x] + t, i + 1) == CidAt(t, i)
  {
  }

  /** No `cid:<digits>` survives the replacement: `re.sub` replaces every match. */
  lemma {:induction false} ReplaceCidRemovesAll(s: string)
    ensures forall i :: !CidAt(ReplaceCid(s), i)
    decreases |s|
  {
    var r := ReplaceCid(s);
    if CidAt(s, 0) {
      var rest := s[MatchEnd(s, 0)..];
      ReplaceCidRemovesAll(rest);
      forall i: nat ensures !CidAt(r, i) {
        if i > 0 { CidAtShift('\n', ReplaceCid(rest), i - 1); }
      }
    } else if |s| > 0 {
      ReplaceCidRemovesAll(s[1..]);
      forall i: nat ensures !CidAt(r, i) {
        if i > 0 {
          CidAtShift(s[0], ReplaceCid(s[1..]), i - 1);
        } else if CidAt(r, 0) {
          ReplaceCidCopies(s, 5);
          assert false;
        }
      }
    }
  }

  /** Text before the leftmost `cid:<digits>` is copied unchanged. */
  lemma {:induction false} ReplaceCidPrefix(s: string, i: nat)
    requires i <= |s|
    requires forall j :: 0 <= j < i ==> !CidAt(s, j)
    ensures ReplaceCid(s) == s[..i] + ReplaceCid(s[i..])
    decreases i
  {
    if i == 0 {
      assert s[..i] == "" && s[i..] == s;
    } else {
      CopyStep(s, i);
      ReplaceCidPrefix(s[1..], i - 1);
    }
  }

  /** One step of `ReplaceCidPrefix`: the first character is copied and the rest has no earlier match either. */
  lemma CopyStep(s: string, i: nat)
    requires 0 < i <= |s|
    requires forall j :: 0 <= j < i ==> !CidAt(s, j)
    ensures forall j :: 0 <= j < i - 1 ==> !CidAt(s[1..], j)
    ensures ReplaceCid(s[1..]) == s[1..][..i - 1] + ReplaceCid(s[1..][i - 1..]) ==>
      ReplaceCid(s) == s[..i] + ReplaceCid(s[i..])
  {
    var t := s[1..];
    forall j | 0 <= j < i - 1 ensures !CidAt(t, j) {
      CidAtTail(s, j);
    }
    if ReplaceCid(t) == t[..i - 1] + ReplaceCid(t[i - 1..]) {
      var y := ReplaceCid(s[i..]);
      assert ReplaceCid(s) == [s[0]] + ReplaceCid(t) by {
        assert !CidAt(s, 0);
        ReplaceCidCopiesHead(s);
      }
      assert t[i - 1..] == s[i..];
      assert s[..i] == [s[0]] + t[..i - 1];
      AppendAssoc([s[0]], t[..i - 1], y);
    }
  }

  /** Text without any `cid:<digits>` passes through the replacement unchanged. */
  lemma ReplaceCidNoMatch(s: string)
    requires forall i :: !CidAt(s, i)
    ensures ReplaceCid(s) == s
  {
    ReplaceCidPrefix(s, |s|);
    assert s[..|s|] == s;
  }

  /**
   * At the leftmost `cid:<digits>`, starting at `i`, the replacement copies
   * the text before it, writes one newline for the whole match (all of its
   * digits), and carries on after the match.
   */
  lemma ReplaceCidFirst(s: string, i: nat)
    requires CidAt(s, i)
    requires forall j :: 0 <= j < i ==> !CidAt(s, j)
    ensures ReplaceCid(s) == s[..i] + "\n" + ReplaceCid(s[MatchEnd(s, i)..])
  {
    var u := s[i..];
    var rest := s[MatchEnd(s, i)..];
    calc {
      ReplaceCid(s);
      { ReplaceCidPrefix(s, i); }
      s[..i] + ReplaceCid(u);
      { MatchEndShift(s, i);
        assert u[MatchEnd(u, 0)..] == rest; }
      s[..i] + ("\n" + ReplaceCid(rest));
      { AppendAssoc(s[..i], "\n", ReplaceCid(rest)); }
      s[..i] + "\n" + ReplaceCid(rest);
    }
  }

  lemma MatchEndShift(s: string, i: nat)
    requires CidAt(s, i)
    ensures CidAt(s[i..], 0) && MatchEnd(s[i..], 0) == MatchEnd(s, i) - i
  {
    var u := s[i..];
    assert CidAt(u, 0);
    assert u[4..] == s[i + 4..];
  }

  lemma AppendAssoc(a: string, b: string, c: string)
    ensures a + (b + c) == a + b + c
  {
  }

  lemma ReplaceCidCopiesHead(s: string)
    requires |s| > 0 && !CidAt(s, 0)
    ensures ReplaceCid(s) == [s[0]] + ReplaceCid(s[1..])
  {
  }

  lemma CidAtTail(s: string, i: nat)
    requires |s| > 0
    ensures CidAt(s[1..], i) == CidAt(s, i + 1)
  {
  }

  /** `re.sub(r'\n', ' ', text)`. */
  function ReplaceNewlines(s: string): (r: string)
    ensures |r| == |s|
    ensures '\n' !in r
    ensures forall i :: 0 <= i < |s| && s[i] != '\n' ==> r[i] == s[i]
  {
    seq(|s|, i requires 0 <= i < |s| => if s[i] == '\n' then ' ' else s[i])
  }

  /**
   * `clean`: drop dot runs, collapse spaces, turn `cid:<digits>` into a
   * newline, then turn every newline into a space. The result has no
   * newline and no `cid:<digits>` left.
   */
  function Clean(text: string): (r: string)
    ensures '\n' !in r
    ensures forall i :: !CidAt(r, i)
  {
    var t := ReplaceCid(CollapseSpaces(DropDotRuns(text)));
    ReplaceCidRemovesAll(CollapseSpaces(DropDotRuns(text)));
    var r := ReplaceNewlines(t);
    assert forall i :: CidAt(r, i) ==> CidAt(t, i);
    r
  }
}
