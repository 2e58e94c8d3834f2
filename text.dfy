/** String operations the report pipeline relies on, written out as the Rust
    standard library defines them: `str::split("\n\n")`, `str::lines`,
    `[&str]::join` and the ordering of `String` keys. */
module Text {

  // ---------------------------------------------------------------------
  // Joining
  // ---------------------------------------------------------------------

  /** `parts.join(sep)`: the parts with `sep` between neighbours. */
  function Join(parts: seq<string>, sep: string): string
  {
    if |parts| == 0 then ""
    else if |parts| == 1 then parts[0]
    else parts[0] + sep + Join(parts[1..], sep)
  }

  // ---------------------------------------------------------------------
  // Splitting on the blank-line separator "\n\n"
  // ---------------------------------------------------------------------

  /** The separator "\n\n" occurs in `s` starting at index `j`. */
  predicate SepAt(s: string, j: int)
  {
    0 <= j && j + 1 < |s| && s[j] == '\n' && s[j + 1] == '\n'
  }

  /** `s` contains no occurrence of "\n\n". */
  predicate NoSep(s: string)
  {
    forall j :: 0 <= j < |s| ==> !SepAt(s, j)
  }

  /** Index of the leftmost separator at or after `i`, or `|s|` when there is none. */
  function FindSep(s: string, i: nat): (r: nat)
    requires i <= |s|
    ensures i <= r <= |s|
    ensures r == |s| || SepAt(s, r)
    ensures forall j :: i <= j < r ==> !SepAt(s, j)
    decreases |s| - i
  {
    if i == |s| || SepAt(s, i) then i else FindSep(s, i + 1)
  }

  /** `s.split("\n\n")`: the pieces between non-overlapping separators found
      left to right. There is always at least one piece. */
  function Split(s: string): (parts: seq<string>)
    ensures |parts| >= 1
    decreases |s|
  {
    var r := FindSep(s, 0);
    if r == |s| then [s] else [s[..r]] + Split(s[r + 2..])
  }

  /** The shape every result of `Split` has: rejoining gives the text back,
      no piece holds a separator, and no piece but the last ends in '\n'
      (otherwise a separator would have been found one character earlier). */
  predicate IsSplitOf(parts: seq<string>, s: string)
  {
    |parts| >= 1 &&
    Join(parts, "\n\n") == s &&
    (forall k :: 0 <= k < |parts| ==> NoSep(parts[k])) &&
    (forall k :: 0 <= k < |parts| - 1 ==> parts[k] == "" || parts[k][|parts[k]| - 1] != '\n')
  }

  lemma JoinCons(a: string, rest: seq<string>, sep: string)
    requires |rest| >= 1
    ensures Join([a] + rest, sep) == a + sep + Join(rest, sep)
  {
    assert ([a] + rest)[1..] == rest;
  }

  /** The piece before the leftmost separator holds no separator and does
      not end in '\n'. */
  lemma FirstPiece(s: string)
    requires FindSep(s, 0) < |s|
    ensures NoSep(s[..FindSep(s, 0)])
    ensures var a := s[..FindSep(s, 0)]; a == "" || a[|a| - 1] != '\n'
  {
    var r := FindSep(s, 0);
    var a := s[..r];
    forall j | 0 <= j < |a| ensures !SepAt(a, j) {
      assert SepAt(a, j) ==> SepAt(s, j);
    }
    assert a != "" && a[|a| - 1] == '\n' ==> SepAt(s, r - 1);
  }

  /** `Split` has the shape above. */
  lemma {:induction false} SplitIsSplit(s: string)
    ensures IsSplitOf(Split(s), s)
    decreases |s|
  {
    var r := FindSep(s, 0);
    if r < |s| {
      var a, t := s[..r], s[r + 2..];
      SplitIsSplit(t);
      FirstPiece(s);
      var tail := Split(t);
      var parts := Split(s);
      assert parts == [a] + tail;
      JoinCons(a, tail, "\n\n");
      assert s == a + "\n\n" + t;
      forall k | 0 <= k < |parts| ensures NoSep(parts[k]) {
        if k > 0 { assert parts[k] == tail[k - 1]; }
      }
      forall k | 0 <= k < |parts| - 1 ensures parts[k] == "" || parts[k][|parts[k]| - 1] != '\n' {
        if k > 0 { assert parts[k] == tail[k - 1]; }
      }
    } else {
      assert NoSep(s);
    }
  }

  /** The shape determines the split: any list of pieces with that shape is
      exactly what `Split` returns. */
  lemma {:induction false} SplitUnique(parts: seq<string>, s: string)
    requires IsSplitOf(parts, s)
    ensures parts == Split(s)
    decreases |parts|
  {
    var a := parts[0];
    if |parts| == 1 {
      assert s == a;
      assert NoSep(s);
    } else {
      var rest := parts[1..];
      JoinCons(a, rest, "\n\n");
      var t := Join(rest, "\n\n");
      assert s == a + "\n\n" + t;
      assert SepAt(s, |a|);
      forall j | 0 <= j < |a| ensures !SepAt(s, j) {
        if j + 1 < |a| {
          assert !SepAt(a, j);
        } else {
          assert s[j] == a[|a| - 1];
        }
      }
      var r := FindSep(s, 0);
      assert r == |a|;
      assert s[..r] == a;
      assert s[r + 2..] == t;
      assert IsSplitOf(rest, t) by {
        forall k | 0 <= k < |rest| ensures NoSep(rest[k]) { assert rest[k] == parts[k + 1]; }
        forall k | 0 <= k < |rest| - 1 ensures rest[k] == "" || rest[k][|rest[k]| - 1] != '\n' {
          assert rest[k] == parts[k + 1];
        }
      }
      SplitUnique(rest, t);
    }
  }

  // ---------------------------------------------------------------------
  // Lines, as `str::lines` yields them
  // ---------------------------------------------------------------------

  /** Index of the first '\n' at or after `i`, or `|s|` when there is none. */
  function FindNl(s: string, i: nat): (e: nat)
    requires i <= |s|
    ensures i <= e <= |s|
    ensures forall j :: i <= j < e ==> s[j] != '\n'
    ensures e < |s| ==> s[e] == '\n'
    decreases |s| - i
  {
    if i == |s| || s[i] == '\n' then i else FindNl(s, i + 1)
  }

  /** A line that was ended by "\r\n" loses its '\r'. */
  function StripCr(l: string): string
  {
    if |l| > 0 && l[|l| - 1] == '\r' then l[..|l| - 1] else l
  }

  /** `s.lines()`: pieces ended by '\n' (with a "\r\n" ending stripped too),
      plus a final piece without a line ending if it is not empty. */
  function Lines(s: string): (ls: seq<string>)
    ensures s != "" ==> |ls| >= 1
    decreases |s|
  {
    if s == "" then []
    else
      var e := FindNl(s, 0);
      if e == |s| then [s] else [StripCr(s[..e])] + Lines(s[e + 1..])
  }

  /** `s.lines().skip(n).collect::<Vec<&str>>().join("\n")`. */
  function SkipLines(s: string, n: nat): string
  {
    var ls := Lines(s);
    Join(if |ls| <= n then [] else ls[n..], "\n")
  }

  /** The lines `hs`, each followed by '\n'. */
  function Terminated(hs: seq<string>): string
  {
    if hs == [] then "" else hs[0] + "\n" + Terminated(hs[1..])
  }

  predicate NoNewline(l: string)
  {
    forall j :: 0 <= j < |l| ==> l[j] != '\n'
  }

  lemma LinesCons(l: string, t: string)
    requires NoNewline(l)
    ensures Lines(l + "\n" + t) == [StripCr(l)] + Lines(t)
  {
    var s := l + "\n" + t;
    assert s[|l|] == '\n';
    assert forall j :: 0 <= j < |l| ==> s[j] == l[j];
    assert s[..|l|] == l;
    assert s[|l| + 1..] == t;
  }

  /** After `n` newline-terminated lines, the lines of the rest follow. */
  lemma {:induction false} LinesAfterTerminated(hs: seq<string>, rest: string)
    requires forall k :: 0 <= k < |hs| ==> NoNewline(hs[k])
    ensures |Lines(Terminated(hs) + rest)| == |hs| + |Lines(rest)|
    ensures Lines(Terminated(hs) + rest)[|hs|..] == Lines(rest)
  {
    if hs != [] {
      var t := Terminated(hs[1..]) + rest;
      LinesAfterTerminated(hs[1..], rest);
      var tl := Lines(t);
      assert |tl| == |hs| - 1 + |Lines(rest)| && tl[|hs| - 1..] == Lines(rest);
      assert Terminated(hs) == hs[0] + "\n" + Terminated(hs[1..]);
      assert Terminated(hs) + rest == hs[0] + "\n" + t;
      LinesCons(hs[0], t);
      var ls := Lines(Terminated(hs) + rest);
      assert ls == [StripCr(hs[0])] + tl;
      assert ls[|hs|..] == tl[|hs| - 1..];
    } else {
      assert Terminated(hs) + rest == rest;
    }
  }

  /** Rejoining the lines of a text with '\n' gives the text back when it has
      no '\r' and does not end in '\n'. */
  lemma {:induction false} JoinLines(s: string)
    requires forall j :: 0 <= j < |s| ==> s[j] != '\r'
    requires s == "" || s[|s| - 1] != '\n'
    ensures Join(Lines(s), "\n") == s
    decreases |s|
  {
    if s != "" {
      var e := FindNl(s, 0);
      if e < |s| {
        var l, t := s[..e], s[e + 1..];
        assert s == l + "\n" + t;
        assert t != "";
        JoinLines(t);
        assert StripCr(l) == l by {
          if |l| > 0 { assert l[|l| - 1] == s[e - 1]; }
        }
        JoinCons(l, Lines(t), "\n");
      }
    }
  }

  /** Skipping `|hs|` lines drops exactly the header `Terminated(hs)` and
      keeps the rest verbatim. */
  lemma SkipHeader(hs: seq<string>, rest: string)
    requires forall k :: 0 <= k < |hs| ==> NoNewline(hs[k])
    requires forall j :: 0 <= j < |rest| ==> rest[j] != '\r'
    requires rest == "" || rest[|rest| - 1] != '\n'
    ensures SkipLines(Terminated(hs) + rest, |hs|) == rest
  {
    LinesAfterTerminated(hs, rest);
    JoinLines(rest);
  }

  // ---------------------------------------------------------------------
  // Ordering of String keys
  // ---------------------------------------------------------------------

  /** `a < b` for Rust strings: lexicographic comparison. Comparing UTF-8
      bytes, as Rust does, orders strings like comparing code points. */
  predicate Less(a: string, b: string)
    decreases |a|
  {
    |b| > 0 && (|a| == 0 || a[0] < b[0] || (a[0] == b[0] && Less(a[1..], b[1..])))
  }

  lemma {:induction false} LessIrreflexive(a: string)
    ensures !Less(a, a)
    decreases |a|
  {
    if |a| > 0 { LessIrreflexive(a[1..]); }
  }

  lemma {:induction false} LessTransitive(a: string, b: string, c: string)
    requires Less(a, b) && Less(b, c)
    ensures Less(a, c)
    decreases |a|
  {
    if |a| > 0 && a[0] == b[0] && b[0] == c[0] {
      LessTransitive(a[1..], b[1..], c[1..]);
    }
  }

  lemma {:induction false} LessTotal(a: string, b: string)
    ensures a == b || Less(a, b) || Less(b, a)
    decreases |a|
  {
    if |a| > 0 && |b| > 0 && a[0] == b[0] {
      LessTotal(a[1..], b[1..]);
      if a[1..] == b[1..] {
        assert a == [a[0]] + a[1..] && b == [b[0]] + b[1..];
      }
    }
  }

  /** A common prefix does not change the comparison. */
  lemma {:induction false} LessCommonPrefix(p: string, x: string, y: string)
    requires Less(x, y)
    ensures Less(p + x, p + y)
    decreases |p|
  {
    if |p| > 0 {
      LessCommonPrefix(p[1..], x, y);
      assert (p + x)[1..] == p[1..] + x;
      assert (p + y)[1..] == p[1..] + y;
      assert (p + x)[0] == p[0] == (p + y)[0];
    } else {
      assert p + x == x && p + y == y;
    }
  }
}
