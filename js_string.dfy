/** The JavaScript string operations the parser relies on, for the one-character
    separators and patterns that main.js passes to them. */
module JsString {

  /** `s.split(sep)` with a one-character string separator: the pieces between
      the separators, in order; the empty string splits into one empty piece. */
  function Split(s: string, sep: char): (parts: seq<string>)
    ensures |parts| >= 1
    decreases |s|
  {
    if |s| == 0 then [""]
    else
      var rest := Split(s[1..], sep);
      if s[0] == sep then [""] + rest
      else [[s[0]] + rest[0]] + rest[1..]
  }

  /** `parts.join(sep)`. */
  function Join(parts: seq<string>, sep: char): string
    decreases |parts|
  {
    if |parts| == 0 then ""
    else if |parts| == 1 then parts[0]
    else parts[0] + [sep] + Join(parts[1..], sep)
  }

  /** The number of occurrences of `c` in `s`. */
  function Count(s: string, c: char): nat
  {
    multiset(s)[c]
  }

  /** The index of the first `c` in `s`, which must occur. */
  function IndexOf(s: string, c: char): (i: nat)
    requires c in s
    ensures i < |s| && s[i] == c && c !in s[..i]
    decreases |s|
  {
    if s[0] == c then 0
    else
      assert c in s[1..] by { var j :| 0 <= j < |s| && s[j] == c; assert s[1..][j - 1] == c; }
      var k := IndexOf(s[1..], c);
      assert s[..k + 1] == [s[0]] + s[1..][..k];
      k + 1
  }

  /** `s.replace(c, "")` with a string (not a global regular expression)
      pattern: only the first occurrence of `c` is removed. */
  function ReplaceFirst(s: string, c: char): string
    decreases |s|
  {
    if |s| == 0 then ""
    else if s[0] == c then s[1..]
    else [s[0]] + ReplaceFirst(s[1..], c)
  }

  /** Splitting yields as many pieces as there are separators plus one. */
  lemma {:induction false} SplitCount(s: string, sep: char)
    ensures |Split(s, sep)| == Count(s, sep) + 1
    decreases |s|
  {
    if |s| > 0 {
      SplitCount(s[1..], sep);
      assert s == [s[0]] + s[1..];
      assert multiset(s) == multiset{s[0]} + multiset(s[1..]);
    }
  }

  /** No piece contains the separator. */
  lemma {:induction false} SplitPiecesFree(s: string, sep: char)
    ensures forall i :: 0 <= i < |Split(s, sep)| ==> sep !in Split(s, sep)[i]
    decreases |s|
  {
    if |s| > 0 {
      SplitPiecesFree(s[1..], sep);
    }
  }

  /** Joining the pieces with the separator gives back the string. */
  lemma {:induction false} JoinSplit(s: string, sep: char)
    ensures Join(Split(s, sep), sep) == s
    decreases |s|
  {
    if |s| > 0 {
      var rest := Split(s[1..], sep);
      JoinSplit(s[1..], sep);
      if s[0] == sep {
        assert Split(s, sep) == [""] + rest;
        assert ([""] + rest)[1..] == rest;
      } else {
        var parts := [[s[0]] + rest[0]] + rest[1..];
        assert Split(s, sep) == parts;
        if |rest| == 1 {
          assert Join(parts, sep) == [s[0]] + rest[0];
        } else {
          assert parts[1..] == rest[1..];
          assert Join(rest, sep) == rest[0] + [sep] + Join(rest[1..], sep);
        }
      }
    }
  }

  /** A separator-free prefix is glued onto the first piece of what follows it. */
  lemma {:induction false} SplitPrefix(p: string, t: string, sep: char)
    requires sep !in p
    ensures Split(p + t, sep) == [p + Split(t, sep)[0]] + Split(t, sep)[1..]
    decreases |p|
  {
    if |p| > 0 {
      assert (p + t)[1..] == p[1..] + t;
      assert sep !in p[1..] by { assert forall j :: 0 <= j < |p[1..]| ==> p[1..][j] == p[j + 1]; }
      SplitPrefix(p[1..], t, sep);
      assert [p[0]] + (p[1..] + Split(t, sep)[0]) == p + Split(t, sep)[0];
    } else {
      var parts := Split(t, sep);
      assert p + t == t && p + parts[0] == parts[0];
      assert parts == [parts[0]] + parts[1..];
    }
  }

  /** A separator-free prefix and a separator split off as the first piece. */
  lemma SplitAtSeparator(a: string, t: string, sep: char)
    requires sep !in a
    ensures Split(a + [sep] + t, sep) == [a] + Split(t, sep)
  {
    assert a + [sep] + t == a + ([sep] + t);
    SplitPrefix(a, [sep] + t, sep);
    assert ([sep] + t)[1..] == t;
    assert Split([sep] + t, sep) == [""] + Split(t, sep);
    assert a + "" == a;
  }

  /** Two separator-free pieces joined by the separator, then the end of the
      string or another separator, are the first two pieces. */
  lemma SplitTwoPieces(a: string, b: string, rest: string, sep: char)
    requires sep !in a && sep !in b
    requires rest == "" || rest[0] == sep
    ensures var parts := Split(a + [sep] + b + rest, sep);
      |parts| >= 2 && parts[0] == a && parts[1] == b
  {
    assert a + [sep] + b + rest == a + [sep] + (b + rest);
    SplitAtSeparator(a, b + rest, sep);
    SplitPrefix(b, rest, sep);
    SplitFirstEmpty(rest, sep);
    assert b + "" == b;
  }

  /** The first piece is empty exactly when the string is empty or starts with
      the separator. */
  lemma SplitFirstEmpty(s: string, sep: char)
    ensures Split(s, sep)[0] == "" <==> s == "" || s[0] == sep
  {
  }

  /** Splitting a join of separator-free pieces gives back the pieces. */
  lemma {:induction false} SplitJoin(parts: seq<string>, sep: char)
    requires |parts| >= 1
    requires forall i :: 0 <= i < |parts| ==> sep !in parts[i]
    ensures Split(Join(parts, sep), sep) == parts
    decreases |parts|
  {
    if |parts| == 1 {
      SplitPrefix(parts[0], "", sep);
      assert parts[0] + "" == parts[0];
    } else {
      var tail := Join(parts[1..], sep);
      SplitJoin(parts[1..], sep);
      assert Join(parts, sep) == parts[0] + ([sep] + tail);
      SplitPrefix(parts[0], [sep] + tail, sep);
      assert ([sep] + tail)[1..] == tail;
      assert Split([sep] + tail, sep) == [""] + Split(tail, sep);
      assert parts[0] + "" == parts[0];
      assert parts == [parts[0]] + parts[1..];
    }
  }

  /** A string without the separator splits into itself alone. */
  lemma SplitWithoutSeparator(s: string, sep: char)
    requires sep !in s
    ensures Split(s, sep) == [s]
  {
    SplitJoin([s], sep);
  }

  /** The first piece is the longest separator-free prefix: it is the whole
      string or it is followed by a separator. */
  lemma {:induction false} SplitHead(s: string, sep: char)
    ensures Split(s, sep)[0] <= s
    ensures sep !in Split(s, sep)[0]
    ensures |Split(s, sep)[0]| == |s| || s[|Split(s, sep)[0]|] == sep
    decreases |s|
  {
    if |s| > 0 && s[0] != sep {
      SplitHead(s[1..], sep);
      assert s == [s[0]] + s[1..];
    }
  }

  /** The second piece, when there is one, is what follows the first
      separator, up to the next one. */
  lemma SplitSecond(s: string, sep: char)
    requires |Split(s, sep)| >= 2
    ensures |Split(s, sep)[0]| < |s|
    ensures Split(s, sep)[1] == Split(s[|Split(s, sep)[0]| + 1..], sep)[0]
  {
    var h := Split(s, sep)[0];
    SplitHead(s, sep);
    if |h| == |s| {
      assert h == s;
      SplitWithoutSeparator(s, sep);
    }
    assert s == h + s[|h|..];
    SplitPrefix(h, s[|h|..], sep);
    var t := s[|h|..];
    assert t == [sep] + s[|h| + 1..];
    assert Split(t, sep) == [""] + Split(s[|h| + 1..], sep);
  }

  /** With at least two pieces, the string opens with the first piece, a
      separator and the second piece, which is followed by the end of the
      string or another separator. */
  lemma SplitFirstTwo(s: string, sep: char)
    requires |Split(s, sep)| >= 2
    ensures var parts := Split(s, sep);
      var n := |parts[0]| + 1 + |parts[1]|;
      && sep !in parts[0]
      && n <= |s| && s == parts[0] + [sep] + parts[1] + s[n..]
      && (n == |s| || s[n] == sep)
  {
    var h := Split(s, sep)[0];
    SplitHead(s, sep);
    SplitSecond(s, sep);
    var q := s[|h| + 1..];
    SplitHead(q, sep);
    assert s == h + [sep] + q by {
      assert s == s[..|h|] + [s[|h|]] + q;
    }
    PieceAfterSeparator(s, h, q, Split(q, sep)[0], sep);
  }

  /** Where a string is a prefix, a separator and a rest, a prefix of the rest
      followed by its end or a separator sits right after that separator. */
  lemma PieceAfterSeparator(s: string, h: string, q: string, second: string, sep: char)
    requires s == h + [sep] + q
    requires second <= q && (|second| == |q| || q[|second|] == sep)
    ensures var n := |h| + 1 + |second|;
      && n <= |s| && s == h + [sep] + second + s[n..]
      && (n == |s| || s[n] == sep)
  {
    var n := |h| + 1 + |second|;
    assert q == second + q[|second|..];
    assert s[n..] == q[|second|..];
  }

  /** A trailing separator leaves a final empty piece. */
  lemma {:induction false} SplitTrailing(s: string, sep: char)
    ensures var parts := Split(s + [sep], sep); |parts| >= 2 && parts[|parts| - 1] == ""
    decreases |s|
  {
    if |s| == 0 {
      assert [sep][1..] == "";
    } else {
      assert (s + [sep])[1..] == s[1..] + [sep];
      SplitTrailing(s[1..], sep);
    }
  }

  /** `replace` removes exactly the first occurrence, and leaves a string
      without one as it is. */
  lemma ReplaceFirstRemovesFirst(s: string, c: char)
    ensures c !in s ==> ReplaceFirst(s, c) == s
    ensures c in s ==> ReplaceFirst(s, c) == s[..IndexOf(s, c)] + s[IndexOf(s, c) + 1..]
  {
    if c in s {
      var i := IndexOf(s, c);
      forall j | 0 <= j < i ensures s[j] != c {
        assert s[..i][j] == s[j];
      }
      ReplaceFirstAt(s, c, i);
    } else {
      ReplaceFirstAbsent(s, c);
    }
  }

  /** Removing a character the string does not hold changes nothing. */
  lemma {:induction false} ReplaceFirstAbsent(s: string, c: char)
    requires forall j :: 0 <= j < |s| ==> s[j] != c
    ensures ReplaceFirst(s, c) == s
    decreases |s|
  {
    if |s| > 0 {
      ReplaceFirstAbsent(s[1..], c);
      assert s == [s[0]] + s[1..];
    }
  }

  /** Removing the character at the first position that holds it. */
  lemma {:induction false} ReplaceFirstAt(s: string, c: char, i: nat)
    requires i < |s| && s[i] == c
    requires forall j :: 0 <= j < i ==> s[j] != c
    ensures ReplaceFirst(s, c) == s[..i] + s[i + 1..]
    decreases i
  {
    if i > 0 {
      var t := s[1..];
      ReplaceFirstAt(t, c, i - 1);
      assert [s[0]] + t[..i - 1] == s[..i];
      assert t[i..] == s[i + 1..];
    }
  }

  /** Only the first occurrence goes: whatever follows it, later occurrences
      included, is kept as it is. */
  lemma ReplaceFirstKeepsRest(s: string, c: char, t: string)
    requires c !in s
    ensures ReplaceFirst(s + [c] + t, c) == s + t
  {
    var u := s + [c] + t;
    forall j | 0 <= j < |s| ensures u[j] != c {
      assert u[j] == s[j];
    }
    ReplaceFirstAt(u, c, |s|);
    assert u[..|s|] == s && u[|s| + 1..] == t;
  }
}
