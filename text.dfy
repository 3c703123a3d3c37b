/** Text-level building blocks used by the CSV converter: C strings, the ASCII
    character classes of <ctype.h>, counting, splitting and joining on a
    delimiter, whitespace trimming, printf-style padding and line assembly.
    Every function here is a specification; the imperative code in
    CsvProcessor is proved against them. */
module Text {

  /** The NUL byte that terminates a C string. */
  const NUL: char := '\0'

  /** `isdigit` on an ASCII character. */
  predicate IsDigit(c: char) {
    '0' <= c <= '9'
  }

  /** `isspace` in the C locale: space, tab, newline, vertical tab, form feed,
      carriage return. */
  predicate IsSpace(c: char) {
    c == ' ' || c == '\t' || c == '\n' || c == '\U{0B}' || c == '\U{0C}' || c == '\r'
  }

  // ---------------------------------------------------------------------------
  // C strings

  /** The C string that starts at index `i` of the buffer `a`: the characters
      up to (not including) the first NUL at or after `i`, or up to the end of
      the buffer if there is none. */
  function CStr(a: seq<char>, i: nat): (r: string)
    requires i <= |a|
    ensures i + |r| <= |a| && r == a[i..i + |r|]
    ensures NUL !in r
    ensures i + |r| == |a| || a[i + |r|] == NUL
    decreases |a| - i
  {
    if i == |a| || a[i] == NUL then [] else [a[i]] + CStr(a, i + 1)
  }

  /** A NUL-free stretch followed by a NUL (or the end) is exactly the C string. */
  lemma {:induction false} CStrUpTo(a: seq<char>, i: nat, k: nat)
    requires i <= k <= |a|
    requires NUL !in a[i..k]
    requires k == |a| || a[k] == NUL
    ensures CStr(a, i) == a[i..k]
    decreases k - i
  {
    if i < k {
      assert a[i] == a[i..k][0];
      assert a[i + 1..k] == a[i..k][1..];
      CStrUpTo(a, i + 1, k);
      assert a[i..k] == [a[i]] + a[i + 1..k];
    }
  }

  /** A C string read across a NUL-free stretch is that stretch followed by
      the C string after it. */
  lemma CStrConcat(a: seq<char>, i: nat, k: nat)
    requires i <= k <= |a|
    requires forall j :: i <= j < k ==> a[j] != NUL
    ensures CStr(a, i) == a[i..k] + CStr(a, k)
  {
    var c := CStr(a, k);
    var e := k + |c|;
    assert NUL !in a[i..e] by {
      forall j | i <= j < e ensures a[j] != NUL {
        if j >= k {
          assert a[j] == c[j - k];
        }
      }
    }
    CStrUpTo(a, i, e);
    assert a[i..e] == a[i..k] + a[k..e];
  }

  /** A C string has one end: two lengths that both stop at the first NUL
      (or the end of the buffer) are the same. */
  lemma NulUnique(a: seq<char>, i: nat, n: nat, m: nat)
    requires i + n <= |a| && (i + n == |a| || a[i + n] == NUL)
    requires forall j :: i <= j < i + n ==> a[j] != NUL
    requires i + m <= |a| && (i + m == |a| || a[i + m] == NUL)
    requires forall j :: i <= j < i + m ==> a[j] != NUL
    ensures n == m
  {
  }

  // ---------------------------------------------------------------------------
  // Counting

  /** Number of occurrences of `c` in `s` (defined from the end, the order in
      which a forward scan extends its prefix). */
  function Count(s: string, c: char): (n: nat)
    ensures n <= |s|
  {
    if s == [] then 0 else Count(s[..|s| - 1], c) + (if s[|s| - 1] == c then 1 else 0)
  }

  /** Count agrees with the multiplicity of `c` in the multiset of `s`. */
  lemma {:induction false} CountIsMultiplicity(s: string, c: char)
    ensures Count(s, c) == multiset(s)[c]
  {
    if s != [] {
      var init, last := s[..|s| - 1], s[|s| - 1];
      assert s == init + [last];
      CountIsMultiplicity(init, c);
    }
  }

  /** Count is additive over concatenation. */
  lemma {:induction false} CountAppend(a: string, b: string, c: char)
    ensures Count(a + b, c) == Count(a, c) + Count(b, c)
    decreases |b|
  {
    if b == [] {
      assert a + b == a;
    } else {
      var b' := b[..|b| - 1];
      assert (a + b)[..|a + b| - 1] == a + b';
      CountAppend(a, b', c);
    }
  }

  /** A prefix holds no more occurrences than the whole string. */
  lemma CountPrefix(s: string, k: nat, c: char)
    requires k <= |s|
    ensures Count(s[..k], c) <= Count(s, c)
  {
    CountAppend(s[..k], s[k..], c);
    assert s[..k] + s[k..] == s;
  }

  /** Occurrences of `c` among the first `i` characters of `s`: what a
      forward scan has counted when it reaches index `i`. */
  function CountTo(s: string, i: nat, c: char): (n: nat)
    requires i <= |s|
    ensures n <= i
  {
    if i == 0 then 0 else CountTo(s, i - 1, c) + (if s[i - 1] == c then 1 else 0)
  }

  /** The scan's count is the count of the prefix read. */
  lemma {:induction false} CountToIsCount(s: string, i: nat, c: char)
    requires i <= |s|
    ensures CountTo(s, i, c) == Count(s[..i], c)
  {
    if i > 0 {
      CountToIsCount(s, i - 1, c);
      assert s[..i][..i - 1] == s[..i - 1];
    }
  }

  /** Scanning a stretch without `c` leaves the count unchanged. */
  lemma {:induction false} CountToSkip(s: string, i: nat, j: nat, c: char)
    requires i <= j <= |s|
    requires forall k :: i <= k < j ==> s[k] != c
    ensures CountTo(s, j, c) == CountTo(s, i, c)
  {
    if j > i {
      CountToSkip(s, i, j - 1, c);
    }
  }

  /** The scan never counts more than the whole string holds. */
  lemma CountToBound(s: string, i: nat, c: char)
    requires i <= |s|
    ensures CountTo(s, i, c) <= Count(s, c)
  {
    CountToIsCount(s, i, c);
    CountPrefix(s, i, c);
  }

  /** Reaching the end, the scan has counted every occurrence. */
  lemma CountToEnd(s: string, c: char)
    ensures CountTo(s, |s|, c) == Count(s, c)
  {
    CountToIsCount(s, |s|, c);
    assert s[..|s|] == s;
  }

  // ---------------------------------------------------------------------------
  // Splitting on every delimiter, and joining

  /** Split `s` at EVERY occurrence of `d`, keeping empty pieces: the pieces
      are the text before the first `d`, between consecutive `d`s, and after
      the last one. Defined from the end, so a forward scan that has read a
      prefix holds exactly the pieces of that prefix. */
  function Split(s: string, d: char): (r: seq<string>)
    ensures |r| >= 1
  {
    if s == [] then [""]
    else
      var init := Split(s[..|s| - 1], d);
      if s[|s| - 1] == d then init + [""]
      else init[..|init| - 1] + [init[|init| - 1] + [s[|s| - 1]]]
  }

  /** Join pieces with a single `d` between consecutive pieces. */
  function Join(ps: seq<string>, d: char): string {
    if |ps| == 0 then ""
    else if |ps| == 1 then ps[0]
    else Join(ps[..|ps| - 1], d) + [d] + ps[|ps| - 1]
  }

  /** Appending one more piece to a non-empty list of pieces. */
  lemma JoinSnoc(ps: seq<string>, p: string, d: char)
    requires |ps| >= 1
    ensures Join(ps + [p], d) == Join(ps, d) + [d] + p
  {
    assert (ps + [p])[..|ps|] == ps;
  }

  /** Joining a prefix of the pieces one piece longer. */
  lemma JoinPrefix(ps: seq<string>, c: nat, d: char)
    requires 1 <= c < |ps|
    ensures Join(ps[..c + 1], d) == Join(ps[..c], d) + [d] + ps[c]
  {
    assert ps[..c + 1] == ps[..c] + [ps[c]];
    JoinSnoc(ps[..c], ps[c], d);
  }

  /** What a writer that emits the pieces left to right, each followed by
      the delimiter unless it is the last, has produced after `c` pieces. */
  function Joined(ps: seq<string>, c: nat, d: char): string
    requires c <= |ps|
  {
    Join(ps[..c], d) + (if 0 < c < |ps| then [d] else [])
  }

  /** Writing piece `c` and, unless it is the last, the delimiter after it. */
  lemma JoinedStep(ps: seq<string>, c: nat, d: char)
    requires c < |ps|
    ensures Joined(ps, c + 1, d) == Joined(ps, c, d) + ps[c] + (if c + 1 < |ps| then [d] else [])
  {
    if c > 0 {
      JoinPrefix(ps, c, d);
    } else {
      assert ps[..1] == [ps[0]];
    }
  }

  /** The same step behind text already written: a file holding `pre` and
      the first `c` pieces, after piece `c` and its delimiter (if any). */
  lemma JoinedAppend(pre: string, ps: seq<string>, c: nat, d: char)
    requires c < |ps|
    ensures c + 1 < |ps| ==> pre + Joined(ps, c + 1, d) == pre + Joined(ps, c, d) + ps[c] + [d]
    ensures c + 1 == |ps| ==> pre + Joined(ps, c + 1, d) == pre + Joined(ps, c, d) + ps[c]
  {
    JoinedStep(ps, c, d);
  }

  /** Text written as an opening mark, a body, and a closing mark with the
      newline, after what the file already held. */
  lemma Enclosed(o: string, open: char, body: string, close: char)
    ensures o + [open] + body + [close, '\n'] == o + ([open] + body + [close]) + "\n"
  {
  }

  /** Once every piece is written, the text is the join. */
  lemma JoinedAll(ps: seq<string>, d: char)
    ensures Joined(ps, |ps|, d) == Join(ps, d)
  {
    assert ps[..|ps|] == ps;
  }

  /** Splitting at one delimiter: the pieces before it, then the pieces
      after it. */
  lemma {:induction false} SplitAppend(a: string, b: string, d: char)
    ensures Split(a + [d] + b, d) == Split(a, d) + Split(b, d)
  {
    if b == [] {
      assert a + [d] + b == a + [d];
      SplitSnoc(a, d, d);
    } else {
      var b' := b[..|b| - 1];
      var ch := b[|b| - 1];
      assert b == b' + [ch];
      SplitAppend(a, b', d);
      SplitAppendSnoc(a, b', ch, d);
    }
  }

  /** A field found by scanning: the text from just after a delimiter (or
      the start) up to the next delimiter (or the end) is the piece whose
      index is the number of delimiters before it. */
  lemma SplitPieceAt(s: string, i: nat, j: nat, d: char)
    requires i <= j <= |s|
    requires i == 0 || s[i - 1] == d
    requires forall k :: i <= k < j ==> s[k] != d
    requires j == |s| || s[j] == d
    ensures Count(s[..i], d) < |Split(s, d)| && Split(s, d)[Count(s[..i], d)] == s[i..j]
  {
    if i == 0 {
      assert s[..0] == [];
      SplitFirstPiece(s, j, d);
    } else {
      SplitPieceAfter(s, i, j, d);
    }
  }

  /** SplitPieceAt for a field that follows a delimiter. */
  lemma SplitPieceAfter(s: string, i: nat, j: nat, d: char)
    requires 0 < i <= j <= |s| && s[i - 1] == d
    requires forall k :: i <= k < j ==> s[k] != d
    requires j == |s| || s[j] == d
    ensures Count(s[..i], d) < |Split(s, d)| && Split(s, d)[Count(s[..i], d)] == s[i..j]
  {
    var before, after := Split(s[..i - 1], d), Split(s[i..], d);
    SplitAtIndex(s, i - 1, d);
    CountThrough(s, i - 1, d);
    TailFirstPiece(s, i, j, d);
    assert (before + after)[|before|] == after[0];
  }

  /** The first piece of the text after a delimiter runs up to the next
      delimiter (or the end). */
  lemma TailFirstPiece(s: string, i: nat, j: nat, d: char)
    requires 0 < i <= j <= |s|
    requires forall k :: i <= k < j ==> s[k] != d
    requires j == |s| || s[j] == d
    ensures Split(s[i..], d)[0] == s[i..j]
  {
    var b := s[i..];
    forall k | 0 <= k < j - i ensures b[k] != d {
      assert b[k] == s[i + k];
    }
    assert j - i == |b| || b[j - i] == d;
    SplitFirstPiece(b, j - i, d);
    assert b[..j - i] == s[i..j];
  }

  /** Splitting at the delimiter at `k`. */
  lemma SplitAtIndex(s: string, k: nat, d: char)
    requires k < |s| && s[k] == d
    ensures Split(s, d) == Split(s[..k], d) + Split(s[k + 1..], d)
  {
    assert s == s[..k] + [d] + s[k + 1..];
    SplitAppend(s[..k], s[k + 1..], d);
  }

  /** The delimiters up to and including the one at `k` number as many as
      the pieces before it. */
  lemma CountThrough(s: string, k: nat, d: char)
    requires k < |s| && s[k] == d
    ensures Count(s[..k + 1], d) == |Split(s[..k], d)|
  {
    SplitLength(s[..k], d);
    assert s[..k + 1][..k] == s[..k];
  }

  /** The text before the first delimiter (or all of it) is the first piece. */
  lemma SplitFirstPiece(s: string, j: nat, d: char)
    requires j <= |s|
    requires forall k :: 0 <= k < j ==> s[k] != d
    requires j == |s| || s[j] == d
    ensures Split(s, d)[0] == s[..j]
  {
    assert d !in s[..j] by {
      forall k | 0 <= k < j ensures s[..j][k] != d {
        assert s[..j][k] == s[k];
      }
    }
    if j == |s| {
      assert s[..j] == s;
      SplitNoDelimiter(s, d);
    } else {
      assert s == s[..j] + [d] + s[j + 1..];
      SplitFront(s[..j], s[j + 1..], d);
    }
  }

  /** The inductive step of SplitAppend: one more character after the
      delimiter. */
  lemma SplitAppendSnoc(a: string, b: string, ch: char, d: char)
    requires Split(a + [d] + b, d) == Split(a, d) + Split(b, d)
    ensures Split(a + [d] + (b + [ch]), d) == Split(a, d) + Split(b + [ch], d)
  {
    assert a + [d] + (b + [ch]) == (a + [d] + b) + [ch];
    if ch == d {
      SplitAppendDelimiter(a, b, d);
    } else {
      SplitAppendOther(a, b, ch, d);
    }
  }

  /** SplitAppendSnoc when the new character is the delimiter. */
  lemma SplitAppendDelimiter(a: string, b: string, d: char)
    requires Split(a + [d] + b, d) == Split(a, d) + Split(b, d)
    ensures Split(a + [d] + b + [d], d) == Split(a, d) + Split(b + [d], d)
  {
    var p, q := Split(a, d), Split(b, d);
    SplitSnoc(a + [d] + b, d, d);
    SplitSnoc(b, d, d);
    assert (p + q) + [""] == p + (q + [""]);
  }

  /** SplitAppendSnoc when the new character is not the delimiter. */
  lemma SplitAppendOther(a: string, b: string, ch: char, d: char)
    requires ch != d
    requires Split(a + [d] + b, d) == Split(a, d) + Split(b, d)
    ensures Split(a + [d] + b + [ch], d) == Split(a, d) + Split(b + [ch], d)
  {
    var p, q := Split(a, d), Split(b, d);
    SplitSnoc(a + [d] + b, ch, d);
    SplitSnoc(b, ch, d);
    PiecesExtend(p, q, ch);
  }

  /** Extending the last piece of `p + q` extends the last piece of `q`. */
  lemma PiecesExtend(p: seq<string>, q: seq<string>, ch: char)
    requires |q| >= 1
    ensures var pq := p + q;
            pq[..|pq| - 1] + [pq[|pq| - 1] + [ch]] == p + (q[..|q| - 1] + [q[|q| - 1] + [ch]])
  {
    var pq := p + q;
    assert pq[..|pq| - 1] == p + q[..|q| - 1];
    assert pq[|pq| - 1] == q[|q| - 1];
  }

  /** Splitting after one more character. */
  lemma SplitSnoc(s: string, ch: char, d: char)
    ensures ch == d ==> Split(s + [ch], d) == Split(s, d) + [""]
    ensures ch != d ==> Split(s + [ch], d) == Split(s, d)[..|Split(s, d)| - 1] + [Split(s, d)[|Split(s, d)| - 1] + [ch]]
  {
    assert (s + [ch])[..|s|] == s;
  }

  /** No piece of a split contains the delimiter. */
  lemma {:induction false} SplitPiecesFree(s: string, d: char)
    ensures forall i :: 0 <= i < |Split(s, d)| ==> d !in Split(s, d)[i]
  {
    if s != [] {
      SplitPiecesFree(s[..|s| - 1], d);
    }
  }

  /** Every character of a piece occurs in the split string. */
  lemma {:induction false} SplitPiecesFrom(s: string, d: char)
    ensures forall i, x :: 0 <= i < |Split(s, d)| && x in Split(s, d)[i] ==> x in s
  {
    if s != [] {
      var init := s[..|s| - 1];
      SplitPiecesFrom(init, d);
      forall i, x | 0 <= i < |Split(s, d)| && x in Split(s, d)[i] ensures x in s {
        assert forall y :: y in init ==> y in s;
      }
    }
  }

  /** There is one more piece than there are delimiters. */
  lemma {:induction false} SplitLength(s: string, d: char)
    ensures |Split(s, d)| == Count(s, d) + 1
  {
    if s != [] {
      SplitLength(s[..|s| - 1], d);
    }
  }

  /** Joining the pieces restores the string. */
  lemma {:induction false} JoinSplit(s: string, d: char)
    ensures Join(Split(s, d), d) == s
  {
    if s != [] {
      var init, last := s[..|s| - 1], s[|s| - 1];
      assert s == init + [last];
      JoinSplit(init, d);
      JoinSplitSnoc(init, last, d);
    }
  }

  /** One more character at the end of the string is one more character at
      the end of the joined pieces. */
  lemma JoinSplitSnoc(s: string, c: char, d: char)
    ensures Join(Split(s + [c], d), d) == Join(Split(s, d), d) + [c]
  {
    var ps := Split(s, d);
    assert (s + [c])[..|s|] == s;
    if c == d {
      JoinSnoc(ps, "", d);
    } else if |ps| > 1 {
      var front, p := ps[..|ps| - 1], ps[|ps| - 1];
      assert front + [p] == ps;
      JoinSnoc(front, p, d);
      JoinSnoc(front, p + [c], d);
    }
  }

  /** A string that does not contain the delimiter is a single piece. */
  lemma {:induction false} SplitNoDelimiter(s: string, d: char)
    requires d !in s
    ensures Split(s, d) == [s]
  {
    if s != [] {
      var init := s[..|s| - 1];
      assert d !in init by {
        forall x | x in init ensures x != d {
          var j :| 0 <= j < |init| && init[j] == x;
          assert s[j] == x;
        }
      }
      SplitNoDelimiter(init, d);
      assert init + [s[|s| - 1]] == s;
    }
  }

  /** Splitting `a + [d] + b`, where `a` is delimiter-free, yields `a` first
      and then the pieces of `b`. */
  lemma SplitFront(a: string, b: string, d: char)
    requires d !in a
    ensures Split(a + [d] + b, d) == [a] + Split(b, d)
  {
    SplitAppend(a, b, d);
    SplitNoDelimiter(a, d);
  }

  /** Splitting a joined list of delimiter-free pieces gives the pieces back:
      together with JoinSplit, Split and Join are mutually inverse. */
  lemma {:induction false} SplitJoin(ps: seq<string>, d: char)
    requires |ps| >= 1
    requires forall i :: 0 <= i < |ps| ==> d !in ps[i]
    ensures Split(Join(ps, d), d) == ps
  {
    if |ps| == 1 {
      SplitNoDelimiter(ps[0], d);
    } else {
      var front, p := ps[..|ps| - 1], ps[|ps| - 1];
      SplitJoin(front, d);
      SplitAfter(Join(front, d), p, d);
      assert front + [p] == ps;
    }
  }

  /** Appending `[d] + p`, with `p` delimiter-free, adds exactly the piece `p`. */
  lemma {:induction false} SplitAfter(a: string, p: string, d: char)
    requires d !in p
    ensures Split(a + [d] + p, d) == Split(a, d) + [p]
    decreases |p|
  {
    var s := a + [d] + p;
    if p == [] {
      assert s[..|s| - 1] == a;
    } else {
      var p' := p[..|p| - 1];
      assert s[..|s| - 1] == a + [d] + p';
      assert d !in p' by {
        forall x | x in p' ensures x != d {
          var j :| 0 <= j < |p'| && p'[j] == x;
          assert p[j] == x;
        }
      }
      SplitAfter(a, p', d);
      assert p' + [p[|p| - 1]] == p;
    }
  }

  /** The pieces of a split, without the empty ones, in order. */
  function NonEmpty(ps: seq<string>): (r: seq<string>)
    ensures |r| <= |ps|
    ensures forall i :: 0 <= i < |r| ==> r[i] != ""
    ensures forall i :: 0 <= i < |r| ==> r[i] in ps
  {
    if ps == [] then []
    else (if ps[0] == "" then [] else [ps[0]]) + NonEmpty(ps[1..])
  }

  /** A character of a join is the separator or comes from a piece. */
  lemma {:induction false} JoinFrom(ps: seq<string>, d: char, x: char)
    requires x in Join(ps, d)
    ensures x == d || exists i :: 0 <= i < |ps| && x in ps[i]
  {
    if |ps| > 1 {
      var front, last := ps[..|ps| - 1], ps[|ps| - 1];
      assert Join(ps, d) == Join(front, d) + [d] + last;
      if x in Join(front, d) {
        JoinFrom(front, d, x);
        if x != d {
          var i :| 0 <= i < |front| && x in front[i];
          assert ps[i] == front[i];
        }
      }
    }
  }

  /** Dropping empty pieces distributes over concatenation. */
  lemma {:induction false} NonEmptyAppend(a: seq<string>, b: seq<string>)
    ensures NonEmpty(a + b) == NonEmpty(a) + NonEmpty(b)
  {
    if a != [] {
      var head := if a[0] == "" then [] else [a[0]];
      assert (a + b)[0] == a[0] && (a + b)[1..] == a[1..] + b;
      assert NonEmpty(a + b) == head + NonEmpty(a[1..] + b);
      NonEmptyAppend(a[1..], b);
    } else {
      assert a + b == b;
    }
  }

  /** Pieces that are all non-empty are kept as they are. */
  lemma {:induction false} NonEmptyKeeps(ps: seq<string>)
    requires forall i :: 0 <= i < |ps| ==> ps[i] != ""
    ensures NonEmpty(ps) == ps
  {
    if ps != [] {
      NonEmptyKeeps(ps[1..]);
    }
  }

  // ---------------------------------------------------------------------------
  // Trimming

  /** Drop leading whitespace. */
  function TrimLeft(s: string): (r: string)
    ensures |r| <= |s|
  {
    if s != [] && IsSpace(s[0]) then TrimLeft(s[1..]) else s
  }

  /** TrimLeft keeps a suffix, drops only whitespace, and stops at a
      non-space. */
  lemma {:induction false} TrimLeftShape(s: string)
    ensures TrimLeft(s) == s[|s| - |TrimLeft(s)|..]
    ensures forall k :: 0 <= k < |s| - |TrimLeft(s)| ==> IsSpace(s[k])
    ensures TrimLeft(s) == [] || !IsSpace(TrimLeft(s)[0])
  {
    if s != [] && IsSpace(s[0]) {
      var t := s[1..];
      TrimLeftShape(t);
      assert t[|t| - |TrimLeft(t)|..] == s[|s| - |TrimLeft(t)|..];
      forall k | 1 <= k < |s| - |TrimLeft(s)| ensures IsSpace(s[k]) {
        assert s[k] == t[k - 1];
      }
    }
  }

  /** Drop trailing whitespace. */
  function TrimRight(s: string): (r: string)
    ensures |r| <= |s|
  {
    if s != [] && IsSpace(s[|s| - 1]) then TrimRight(s[..|s| - 1]) else s
  }

  /** TrimRight keeps a prefix, drops only whitespace, and stops at a
      non-space. */
  lemma {:induction false} TrimRightShape(s: string)
    ensures TrimRight(s) == s[..|TrimRight(s)|]
    ensures forall k :: |TrimRight(s)| <= k < |s| ==> IsSpace(s[k])
    ensures TrimRight(s) == [] || !IsSpace(TrimRight(s)[|TrimRight(s)| - 1])
  {
    if s != [] && IsSpace(s[|s| - 1]) {
      var t := s[..|s| - 1];
      TrimRightShape(t);
      assert t[..|TrimRight(t)|] == s[..|TrimRight(t)|];
      assert forall k :: 0 <= k < |t| ==> s[k] == t[k];
    }
  }

  /** Drop leading and trailing whitespace. */
  function Trim(s: string): string {
    TrimRight(TrimLeft(s))
  }

  /** The trimmed value is the contiguous stretch of the field that remains
      once its leading and trailing whitespace is removed: it has no
      whitespace at either end, only whitespace was removed around it, and it
      is empty exactly when the whole field is whitespace. */
  lemma TrimIsCore(s: string)
    ensures exists a, b :: 0 <= a <= b <= |s| && Trim(s) == s[a..b]
              && (forall k :: 0 <= k < a ==> IsSpace(s[k]))
              && (forall k :: b <= k < |s| ==> IsSpace(s[k]))
    ensures Trim(s) == [] || (!IsSpace(Trim(s)[0]) && !IsSpace(Trim(s)[|Trim(s)| - 1]))
    ensures Trim(s) == [] <==> forall k :: 0 <= k < |s| ==> IsSpace(s[k])
  {
    TrimLeftShape(s);
    TrimRightShape(TrimLeft(s));
    var l := TrimLeft(s);
    var a := |s| - |l|;
    var r := TrimRight(l);
    var b := a + |r|;
    assert r == s[a..b];
    assert forall k :: b <= k < |s| ==> IsSpace(s[k]) by {
      forall k | b <= k < |s| ensures IsSpace(s[k]) {
        assert s[k] == l[k - a];
      }
    }
    if r != [] {
      assert r[0] == l[0];
      assert !IsSpace(s[a]);
    } else {
      assert l == [];
    }
  }

  /** Leading whitespace ended by a non-space (or the end) is exactly
      what TrimLeft removes. */
  lemma {:induction false} TrimLeftAt(s: string, n: nat)
    requires n <= |s|
    requires forall k :: 0 <= k < n ==> IsSpace(s[k])
    requires n == |s| || !IsSpace(s[n])
    ensures TrimLeft(s) == s[n..]
  {
    if n > 0 {
      assert s[1..][n - 1..] == s[n..];
      TrimLeftAt(s[1..], n - 1);
    }
  }

  /** Trailing whitespace after a non-space (or the start) is exactly what
      TrimRight removes. */
  lemma {:induction false} TrimRightAt(s: string, n: nat)
    requires n <= |s|
    requires forall k :: n <= k < |s| ==> IsSpace(s[k])
    requires n == 0 || !IsSpace(s[n - 1])
    ensures TrimRight(s) == s[..n]
  {
    if n < |s| {
      var init := s[..|s| - 1];
      assert init[..n] == s[..n];
      TrimRightAt(init, n);
    }
  }

  /** Whitespace up to `v` and from `e` on, with non-spaces at `v` and at
      `e - 1`: trimming keeps exactly `s[v..e]`. */
  lemma {:induction false} TrimAt(s: string, v: nat, e: nat)
    requires v <= e <= |s|
    requires forall k :: 0 <= k < v ==> IsSpace(s[k])
    requires v == |s| || !IsSpace(s[v])
    requires forall k :: e <= k < |s| ==> IsSpace(s[k])
    requires e == v || !IsSpace(s[e - 1])
    ensures TrimLeft(s) == s[v..]
    ensures Trim(s) == s[v..e]
  {
    if v == 0 {
      assert s[0..] == s && s[0..e] == s[..e];
      TrimRightAt(s, e);
    } else {
      var t := s[1..];
      assert t[v - 1..] == s[v..] && t[v - 1..e - 1] == s[v..e];
      TrimAt(t, v - 1, e - 1);
    }
  }

  /** Every character of a trimmed value occurs in the field. */
  lemma TrimFrom(s: string)
    ensures forall x :: x in Trim(s) ==> x in s
  {
    TrimIsCore(s);
  }

  /** Trimming is idempotent. */
  lemma TrimIdempotent(s: string)
    ensures Trim(Trim(s)) == Trim(s)
  {
    var t := Trim(s);
    TrimIsCore(s);
    if t != [] {
      assert TrimLeft(t) == t;
      assert TrimRight(t) == t;
    }
  }

  // ---------------------------------------------------------------------------
  // Padding, repetition, lines

  /** `n` copies of `c`. */
  function Repeat(c: char, n: nat): (r: string)
    ensures |r| == n && forall k :: 0 <= k < n ==> r[k] == c
  {
    if n == 0 then [] else Repeat(c, n - 1) + [c]
  }

  /** What `printf("%-*s", width, s)` produces: `s` followed by spaces up to
      `width` characters; a longer `s` is written whole. */
  function AlignLeft(s: string, width: nat): (r: string)
    ensures |r| == if |s| < width then width else |s|
    ensures r[..|s|] == s
    ensures forall k :: |s| <= k < |r| ==> r[k] == ' '
  {
    s + Repeat(' ', if |s| < width then width - |s| else 0)
  }

  /** What `printf("%*s", width, s)` produces: spaces up to `width`
      characters followed by `s`; a longer `s` is written whole. */
  function AlignRight(s: string, width: nat): (r: string)
    ensures |r| == if |s| < width then width else |s|
    ensures r[|r| - |s|..] == s
    ensures forall k :: 0 <= k < |r| - |s| ==> r[k] == ' '
  {
    Repeat(' ', if |s| < width then width - |s| else 0) + s
  }

  /** The text of a file holding the given lines, each ended by a newline. */
  function Unlines(ls: seq<string>): string {
    if ls == [] then "" else Unlines(ls[..|ls| - 1]) + ls[|ls| - 1] + "\n"
  }

  /** Appending one line. */
  lemma UnlinesSnoc(ls: seq<string>, l: string)
    ensures Unlines(ls + [l]) == Unlines(ls) + l + "\n"
  {
    assert (ls + [l])[..|ls|] == ls;
  }

  /** The file of two runs of lines is the two files one after the other. */
  lemma {:induction false} UnlinesConcat(a: seq<string>, b: seq<string>)
    ensures Unlines(a + b) == Unlines(a) + Unlines(b)
  {
    if b == [] {
      assert a + b == a;
    } else {
      var init, last := b[..|b| - 1], b[|b| - 1];
      UnlinesConcat(a, init);
      assert Unlines(b) == Unlines(init) + last + "\n" by {
        assert b == init + [last];
        UnlinesSnoc(init, last);
      }
      assert Unlines(a + b) == Unlines(a + init) + last + "\n" by {
        assert a + b == (a + init) + [last];
        UnlinesSnoc(a + init, last);
      }
    }
  }

  /** The file of a first line, a run of lines and a last line, in the
      order they are written. */
  lemma UnlinesFramed(pre: string, first: string, body: seq<string>, last: string)
    ensures pre + Unlines([first] + body + [last]) == pre + first + "\n" + Unlines(body) + last + "\n"
  {
    UnlinesSnoc([first] + body, last);
    UnlinesConcat([first], body);
    UnlinesSnoc([], first);
    assert [] + [first] == [first];
  }

  /** A file of lines is those lines joined by newlines, with one more
      (empty) piece after the final newline. */
  lemma {:induction false} UnlinesIsJoin(ls: seq<string>)
    ensures Unlines(ls) == Join(ls + [""], '\n')
  {
    if ls != [] {
      var front := ls[..|ls| - 1];
      UnlinesIsJoin(front);
      assert front + [ls[|ls| - 1]] == ls;
      JoinSnoc(ls, "", '\n');
      if front != [] {
        JoinSnoc(front, "", '\n');
        JoinSnoc(front, ls[|ls| - 1], '\n');
      }
    }
  }

  /** Reading a file of newline-free lines back splits it into exactly those
      lines, followed by the empty piece after the last newline. */
  lemma UnlinesSplit(ls: seq<string>)
    requires forall i :: 0 <= i < |ls| ==> '\n' !in ls[i]
    ensures Split(Unlines(ls), '\n') == ls + [""]
  {
    UnlinesIsJoin(ls);
    SplitJoin(ls + [""], '\n');
  }
}
