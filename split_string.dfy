/**
 * The three `split_string` overloads: a string cut at every occurrence of
 * one delimiter, every string of a vector cut and the pieces concatenated,
 * and a string cut at the delimiters of a set. Empty pieces are kept.
 */
module SplitString {

  // ---------------------------------------------------------------------------
  // Matches of a delimiter

  /** `d` occurs in `t` starting at position `j`. */
  predicate MatchAt(t: string, d: string, j: nat)
  {
    j + |d| <= |t| && t[j..j + |d|] == d
  }

  /** No occurrence of `d` in `t` starts before position `k`. */
  predicate MatchFree(t: string, d: string, k: nat)
  {
    forall j: nat :: j < k ==> !MatchAt(t, d, j)
  }

  /** The pieces put back together, with `d` between neighbours. */
  function Join(ps: seq<string>, d: string): (s: string)
    requires |ps| >= 1
    ensures |ps| == 1 ==> s == ps[0]
    decreases |ps|
  {
    if |ps| == 1 then ps[0] else ps[0] + d + Join(ps[1..], d)
  }

  /**
   * What splitting means: `ps` puts back together to `s`, every delimiter
   * placed between two pieces is the first occurrence of `d` after the
   * piece before it, and the last piece holds no occurrence at all.
   */
  predicate IsSplit(s: string, d: string, ps: seq<string>)
  {
    |ps| >= 1 && Join(ps, d) == s
    && (forall i :: 0 <= i < |ps| - 1 ==> MatchFree(ps[i] + d, d, |ps[i]|))
    && MatchFree(ps[|ps| - 1], d, |ps[|ps| - 1]|)
  }

  // ---------------------------------------------------------------------------
  // split_string(string, string)

  /** `split_string(s, d)`: `s` cut at every occurrence of `d`, scanning left to right. */
  function Split(s: string, d: string): (ps: seq<string>)
    requires d != []
    ensures |ps| >= 1
    decreases |s|
  {
    if |s| < |d| then [s]
    else if s[..|d|] == d then [""] + Split(s[|d|..], d)
    else
      var rest := Split(s[1..], d);
      [[s[0]] + rest[0]] + rest[1..]
  }

  /** A match one character further in, past a character put in front. */
  lemma MatchAtCons(c: char, t: string, d: string, j: nat)
    requires j >= 1
    ensures MatchAt([c] + t, d, j) <==> MatchAt(t, d, j - 1)
  {
    if j + |d| <= |[c] + t| {
      assert ([c] + t)[j..j + |d|] == t[j - 1..j - 1 + |d|];
    }
  }

  lemma MatchFreeCons(c: char, t: string, d: string, k: nat)
    requires k >= 1 && !MatchAt([c] + t, d, 0)
    ensures MatchFree([c] + t, d, k) <==> MatchFree(t, d, k - 1)
  {
    forall j: nat | j < k - 1
      ensures MatchAt([c] + t, d, j + 1) <==> MatchAt(t, d, j)
    {
      MatchAtCons(c, t, d, j + 1);
    }
    if MatchFree(t, d, k - 1) {
      forall j: nat | j < k
        ensures !MatchAt([c] + t, d, j)
      {
        if j >= 1 {
          MatchAtCons(c, t, d, j);
        }
      }
    }
  }

  lemma JoinCons(p: string, ps: seq<string>, d: string)
    requires |ps| >= 1
    ensures Join([p] + ps, d) == p + d + Join(ps, d)
  {
    assert ([p] + ps)[1..] == ps;
  }

  /** Putting a character in front of the first piece puts it in front of the whole. */
  lemma JoinFirstCons(c: char, ps: seq<string>, d: string)
    requires |ps| >= 1
    ensures Join([[c] + ps[0]] + ps[1..], d) == [c] + Join(ps, d)
  {
    if |ps| > 1 {
      JoinCons([c] + ps[0], ps[1..], d);
      JoinCons(ps[0], ps[1..], d);
      assert [ps[0]] + ps[1..] == ps;
    }
  }

  /** `Split` meets the specification. */
  lemma {:induction false} SplitIsSplit(s: string, d: string)
    requires d != []
    ensures IsSplit(s, d, Split(s, d))
    decreases |s|
  {
    if |s| < |d| {
      assert !MatchAt(s, d, 0);
    } else if s[..|d|] == d {
      assert s == d + s[|d|..];
      SplitIsSplit(s[|d|..], d);
      JoinSplitAtMatch(Split(s[|d|..], d), d);
    } else {
      assert s == [s[0]] + s[1..];
      assert !MatchAt(s, d, 0);
      SplitIsSplit(s[1..], d);
      JoinSplitPastChar(s[0], Split(s[1..], d), d);
    }
  }

  /** Pieces of `t` with an empty piece put in front are the pieces of `d + t`. */
  lemma JoinSplitAtMatch(rest: seq<string>, d: string)
    requires d != [] && |rest| >= 1 && IsSplit(Join(rest, d), d, rest)
    ensures IsSplit(d + Join(rest, d), d, [""] + rest)
  {
    var ps := [""] + rest;
    JoinCons("", rest, d);
    assert "" + d == d;
    forall i | 1 <= i < |ps| - 1
      ensures MatchFree(ps[i] + d, d, |ps[i]|)
    {
      assert ps[i] == rest[i - 1];
    }
    assert ps[|ps| - 1] == rest[|rest| - 1];
  }

  /**
   * Pieces of `t` with `c` put in front of the first are the pieces of
   * `[c] + t`, when no delimiter starts at `c`.
   */
  lemma JoinSplitPastChar(c: char, rest: seq<string>, d: string)
    requires d != [] && |rest| >= 1 && IsSplit(Join(rest, d), d, rest)
    requires !MatchAt([c] + Join(rest, d), d, 0)
    ensures IsSplit([c] + Join(rest, d), d, [[c] + rest[0]] + rest[1..])
  {
    var ps := [[c] + rest[0]] + rest[1..];
    JoinFirstCons(c, rest, d);
    if |rest| == 1 {
      MatchFreeCons(c, rest[0], d, |ps[0]|);
    } else {
      var p := [c] + (rest[0] + d);
      assert ps[0] + d == p;
      assert !MatchAt(p, d, 0) by {
        var s := [c] + Join(rest, d);
        assert s == p + Join(rest[1..], d);
        assert s[..|d|] == p[..|d|];
      }
      MatchFreeCons(c, rest[0] + d, d, |ps[0]|);
      forall i | 1 <= i < |ps| - 1
        ensures MatchFree(ps[i] + d, d, |ps[i]|)
      {
        assert ps[i] == rest[i];
      }
      assert ps[|ps| - 1] == rest[|rest| - 1];
    }
  }

  /** The specification admits no other pieces than those `Split` returns. */
  lemma {:induction false} IsSplitUnique(s: string, d: string, ps: seq<string>)
    requires d != [] && IsSplit(s, d, ps)
    ensures ps == Split(s, d)
    decreases |s|
  {
    if |ps| == 1 {
      assert s == ps[0];
      if |s| >= |d| {
        assert !MatchAt(s, d, 0);
        assert [s[0]] + s[1..] == s;
        MatchFreeCons(s[0], s[1..], d, |s|);
        IsSplitUnique(s[1..], d, [s[1..]]);
      }
    } else {
      var p, rest := ps[0], Join(ps[1..], d);
      JoinCons(p, ps[1..], d);
      assert [p] + ps[1..] == ps;
      assert s == p + d + rest;
      var tail := ps[1..];
      assert IsSplit(rest, d, tail) by {
        forall i | 0 <= i < |tail| - 1
          ensures MatchFree(tail[i] + d, d, |tail[i]|)
        {
          assert tail[i] == ps[i + 1];
        }
      }
      if p == [] {
        assert s[..|d|] == d;
        assert s[|d|..] == rest;
        IsSplitUnique(rest, d, tail);
      } else {
        assert !MatchAt(p + d, d, 0);
        assert s[..|d|] == (p + d)[..|d|];
        var ps' := [p[1..]] + tail;
        assert [p[0]] + (p[1..] + d) == p + d;
        MatchFreeCons(p[0], p[1..] + d, d, |p|);
        assert IsSplit(s[1..], d, ps') by {
          JoinCons(p[1..], tail, d);
          assert s[1..] == p[1..] + d + rest;
          forall i | 0 <= i < |ps'| - 1
            ensures MatchFree(ps'[i] + d, d, |ps'[i]|)
          {
            if i > 0 {
              assert ps'[i] == ps[i];
            }
          }
          assert ps'[|ps'| - 1] == ps[|ps| - 1];
        }
        IsSplitUnique(s[1..], d, ps');
        assert [s[0]] + p[1..] == p;
        assert ps == [[s[0]] + ps'[0]] + ps'[1..];
      }
    }
  }

  /** Splitting then joining gives the string back. */
  lemma JoinSplit(s: string, d: string)
    requires d != []
    ensures Join(Split(s, d), d) == s
  {
    SplitIsSplit(s, d);
  }

  /** With no occurrence of the delimiter the result is the input alone. */
  lemma SplitNoMatch(s: string, d: string)
    requires d != [] && MatchFree(s, d, |s|)
    ensures Split(s, d) == [s]
  {
    IsSplitUnique(s, d, [s]);
  }

  /** A piece free of the delimiter, then the delimiter, is cut off at the front. */
  lemma {:induction false} SplitFirstPiece(p: string, d: string, t: string)
    requires d != [] && MatchFree(p + d, d, |p|)
    ensures Split(p + d + t, d) == [p] + Split(t, d)
  {
    var rest := Split(t, d);
    SplitIsSplit(t, d);
    JoinCons(p, rest, d);
    var ps := [p] + rest;
    assert IsSplit(p + d + t, d, ps) by {
      forall i | 0 <= i < |ps| - 1
        ensures MatchFree(ps[i] + d, d, |ps[i]|)
      {
        if i > 0 {
          assert ps[i] == rest[i - 1];
        }
      }
      assert ps[|ps| - 1] == rest[|rest| - 1];
    }
    IsSplitUnique(p + d + t, d, ps);
  }

  /**
   * No occurrence of `d` can start inside `a` when its first character is
   * not there, nor in a tail `b` too short to hold it.
   */
  lemma NoMatchIn(a: string, b: string, d: string)
    requires d != [] && d[0] !in a && |b| < |d|
    ensures MatchFree(a + b, d, |a + b|)
  {
    forall j: nat | j < |a + b|
      ensures !MatchAt(a + b, d, j)
    {
      if j + |d| <= |a + b| {
        assert (a + b)[j..j + |d|][0] == a[j] != d[0];
      }
    }
  }

  lemma NoMatch(t: string, d: string)
    requires d != [] && d[0] !in t
    ensures MatchFree(t, d, |t|)
  {
    NoMatchIn(t, "", d);
    assert t + "" == t;
  }

  /** A piece without the first character of `d`, followed by `d`, has no earlier match. */
  lemma PieceFree(p: string, d: string)
    requires d != [] && d[0] !in p
    ensures MatchFree(p + d, d, |p|)
  {
    forall j: nat | j < |p|
      ensures !MatchAt(p + d, d, j)
    {
      assert (p + d)[j..j + |d|][0] == p[j] != d[0];
    }
  }

  // ---------------------------------------------------------------------------
  // split_string(vector<string>, string)

  /** `split_string(v, d)`: every string of `v` split at `d`, the pieces kept in order. */
  function SplitEach(v: seq<string>, d: string): (ps: seq<string>)
    requires d != []
    ensures |ps| >= |v|
  {
    if v == [] then [] else Split(v[0], d) + SplitEach(v[1..], d)
  }

  /** Splitting a vector of one string is splitting that string. */
  lemma SplitEachSingle(s: string, d: string)
    requires d != []
    ensures SplitEach([s], d) == Split(s, d)
  {
    assert [s][1..] == [];
  }

  /** Splitting distributes over concatenation of vectors. */
  lemma {:induction false} SplitEachAppend(v: seq<string>, w: seq<string>, d: string)
    requires d != []
    ensures SplitEach(v + w, d) == SplitEach(v, d) + SplitEach(w, d)
    decreases |v|
  {
    if v == [] {
      assert v + w == w;
    } else {
      assert (v + w)[1..] == v[1..] + w;
      SplitEachAppend(v[1..], w, d);
    }
  }

  // ---------------------------------------------------------------------------
  // split_string(string, set<string>)

  /** Strict lexicographic order on strings, the iteration order of a `std::set<std::string>`. */
  predicate LexLess(a: string, b: string)
    decreases |a|
  {
    if a == [] then b != []
    else b != [] && (a[0] < b[0] || (a[0] == b[0] && LexLess(a[1..], b[1..])))
  }

  /** A set of delimiters, listed in its iteration order. */
  predicate DelimiterSet(ds: seq<string>)
  {
    (forall i :: 0 <= i < |ds| ==> ds[i] != [])
    && (forall i :: 0 <= i < |ds| - 1 ==> LexLess(ds[i], ds[i + 1]))
  }

  /** Every piece split at each delimiter of `ds`, one delimiter after the other. */
  function SplitAll(ps: seq<string>, ds: seq<string>): (r: seq<string>)
    requires forall i :: 0 <= i < |ds| ==> ds[i] != []
    ensures |r| >= |ps|
    decreases |ds|
  {
    if ds == [] then ps else SplitAll(SplitEach(ps, ds[0]), ds[1..])
  }

  /** `split_string(s, delimiters)`: `s` split at every delimiter of the set. */
  function SplitAny(s: string, ds: seq<string>): (ps: seq<string>)
    requires DelimiterSet(ds)
    ensures |ps| >= 1
  {
    SplitAll([s], ds)
  }

  /** An independent reference: `s` cut at every character that belongs to `cs`. */
  function SplitOnChars(s: string, cs: set<char>): (ps: seq<string>)
    ensures |ps| >= 1
    decreases |s|
  {
    if s == [] then [""]
    else
      var rest := SplitOnChars(s[1..], cs);
      if s[0] in cs then [""] + rest else [[s[0]] + rest[0]] + rest[1..]
  }

  /** Separators of one character each, every one a character of `cs`. */
  predicate CutsIn(cuts: seq<string>, cs: set<char>)
  {
    forall i :: 0 <= i < |cuts| ==> |cuts[i]| == 1 && cuts[i][0] in cs
  }

  /** No piece holds a character of `cs`. */
  predicate PiecesAvoid(ps: seq<string>, cs: set<char>)
  {
    forall i, j :: 0 <= i < |ps| && 0 <= j < |ps[i]| ==> ps[i][j] !in cs
  }

  /**
   * What the reference means: no piece holds a character of `cs`, and the
   * pieces in order, with one character of `cs` between neighbours, rebuild `s`.
   */
  lemma {:induction false} SplitOnCharsPieces(s: string, cs: set<char>) returns (cuts: seq<string>)
    ensures PiecesAvoid(SplitOnChars(s, cs), cs)
    ensures |cuts| == |SplitOnChars(s, cs)| - 1 && CutsIn(cuts, cs)
    ensures JoinWith(SplitOnChars(s, cs), cuts) == s
    decreases |s|
  {
    if s == [] {
      cuts := [];
    } else {
      var rest := SplitOnChars(s[1..], cs);
      var restCuts := SplitOnCharsPieces(s[1..], cs);
      if s[0] in cs {
        cuts := [[s[0]]] + restCuts;
        var ps := [""] + rest;
        assert ps[1..] == rest && cuts[1..] == restCuts;
        assert forall i :: 1 <= i < |ps| ==> ps[i] == rest[i - 1];
        assert forall i :: 1 <= i < |cuts| ==> cuts[i] == restCuts[i - 1];
        assert [s[0]] + s[1..] == s;
      } else {
        cuts := restCuts;
        var ps := [[s[0]] + rest[0]] + rest[1..];
        JoinWithFirstCons(s[0], rest, restCuts);
        assert forall i :: 1 <= i < |ps| ==> ps[i] == rest[i];
        assert forall j :: 1 <= j < |ps[0]| ==> ps[0][j] == rest[0][j - 1];
        assert [s[0]] + s[1..] == s;
      }
    }
  }

  /** Conversely, any pieces with those properties are the reference's pieces. */
  lemma {:induction false} SplitOnCharsUnique(s: string, cs: set<char>, ps: seq<string>, cuts: seq<string>)
    requires |ps| >= 1 && |cuts| == |ps| - 1
    requires PiecesAvoid(ps, cs) && CutsIn(cuts, cs)
    requires JoinWith(ps, cuts) == s
    ensures ps == SplitOnChars(s, cs)
    decreases |s|
  {
    if ps[0] == [] {
      if |ps| > 1 {
        var tail := JoinWith(ps[1..], cuts[1..]);
        assert s == cuts[0] + tail && cuts[0] == [s[0]];
        assert s[1..] == tail;
        assert PiecesAvoid(ps[1..], cs) by {
          assert forall i :: 0 <= i < |ps| - 1 ==> ps[1..][i] == ps[i + 1];
        }
        assert CutsIn(cuts[1..], cs) by {
          assert forall i :: 0 <= i < |cuts| - 1 ==> cuts[1..][i] == cuts[i + 1];
        }
        SplitOnCharsUnique(s[1..], cs, ps[1..], cuts[1..]);
        assert ps == [""] + ps[1..];
      }
    } else {
      var ps' := [ps[0][1..]] + ps[1..];
      assert ps[0] == [ps[0][0]] + ps[0][1..];
      assert ps == [[ps[0][0]] + ps'[0]] + ps'[1..];
      JoinWithFirstCons(ps[0][0], ps', cuts);
      assert s[0] == ps[0][0] && s[1..] == JoinWith(ps', cuts);
      assert PiecesAvoid(ps', cs) by {
        assert forall j :: 0 <= j < |ps'[0]| ==> ps'[0][j] == ps[0][j + 1];
        assert forall i :: 1 <= i < |ps'| ==> ps'[i] == ps[i];
      }
      SplitOnCharsUnique(s[1..], cs, ps', cuts);
    }
  }

  /** With a one-character delimiter, `Split` is the reference with a one-element set. */
  lemma {:induction false} SplitOneChar(s: string, c: char)
    ensures Split(s, [c]) == SplitOnChars(s, {c})
    decreases |s|
  {
    if s != [] {
      assert s[..1] == [c] <==> s[0] == c;
      SplitOneChar(s[1..], c);
    }
  }

  lemma SplitOnCharsNone(s: string)
    ensures SplitOnChars(s, {}) == [s]
    decreases |s|
  {
    if s != [] {
      SplitOnCharsNone(s[1..]);
      assert [s[0]] + s[1..] == s;
    }
  }

  /** Splitting the reference's pieces at one more character adds that character to the set. */
  lemma {:induction false} SplitEachOnChars(s: string, cs: set<char>, c: char)
    ensures SplitEach(SplitOnChars(s, cs), [c]) == SplitOnChars(s, cs + {c})
    decreases |s|
  {
    if s == [] {
      assert SplitOnChars(s, cs) == [""];
      SplitEachSingle("", [c]);
    } else {
      SplitEachOnChars(s[1..], cs, c);
      if s[0] in cs {
        SplitEachOnCharsCut(s, cs, c);
      } else if s[0] == c {
        KeepAtDelimiter(s, cs, c);
      } else {
        KeepOffDelimiter(s, cs, c);
      }
    }
  }

  /** The induction step when the first character is already a cut. */
  lemma SplitEachOnCharsCut(s: string, cs: set<char>, c: char)
    requires s != [] && s[0] in cs
    requires SplitEach(SplitOnChars(s[1..], cs), [c]) == SplitOnChars(s[1..], cs + {c})
    ensures SplitEach(SplitOnChars(s, cs), [c]) == SplitOnChars(s, cs + {c})
  {
    var r := SplitOnChars(s[1..], cs);
    SplitEachAppend([""], r, [c]);
    SplitEachSingle("", [c]);
  }

  /** The induction step when the first character is the new delimiter. */
  lemma KeepAtDelimiter(s: string, cs: set<char>, c: char)
    requires s != [] && s[0] !in cs && s[0] == c
    requires SplitEach(SplitOnChars(s[1..], cs), [c]) == SplitOnChars(s[1..], cs + {c})
    ensures SplitEach(SplitOnChars(s, cs), [c]) == SplitOnChars(s, cs + {c})
  {
    var r := SplitOnChars(s[1..], cs);
    KeepParts(s, cs, c);
    SplitAtFirstChar(c, r[0]);
    OnCharsCutFirst(s, cs + {c});
    AppendAssoc([""], Split(r[0], [c]), SplitEach(r[1..], [c]));
  }

  /** A string that starts with a one-character delimiter starts with an empty piece. */
  lemma SplitAtFirstChar(c: char, t: string)
    ensures Split([c] + t, [c]) == [""] + Split(t, [c])
  {
    var s := [c] + t;
    assert s[..1] == [c] && s[1..] == t;
  }

  /** A first character in the set cuts off an empty piece (one unfolding, kept apart for proof stability). */
  lemma OnCharsCutFirst(s: string, cs: set<char>)
    requires s != [] && s[0] in cs
    ensures SplitOnChars(s, cs) == [""] + SplitOnChars(s[1..], cs)
  {
  }

  /** A solver hint, kept apart for proof stability. */
  lemma AppendAssoc(x: seq<string>, y: seq<string>, z: seq<string>)
    ensures x + y + z == x + (y + z)
  {
  }

  /** The induction step when the first character is kept. */
  lemma KeepOffDelimiter(s: string, cs: set<char>, c: char)
    requires s != [] && s[0] !in cs && s[0] != c
    requires SplitEach(SplitOnChars(s[1..], cs), [c]) == SplitOnChars(s[1..], cs + {c})
    ensures SplitEach(SplitOnChars(s, cs), [c]) == SplitOnChars(s, cs + {c})
  {
    var r := SplitOnChars(s[1..], cs);
    var r' := SplitOnChars(s[1..], cs + {c});
    var x, y := Split(r[0], [c]), SplitEach(r[1..], [c]);
    KeepParts(s, cs, c);
    SplitKeepFirst(s[0], r[0], [c]);
    OnCharsKeepFirst(s, cs + {c});
    ConsFirst(s[0], x, y);
  }

  /** A first character that is not the delimiter joins the first piece. */
  lemma SplitKeepFirst(c: char, t: string, d: string)
    requires d != [] && [c] != d[..1]
    ensures Split([c] + t, d) == [[c] + Split(t, d)[0]] + Split(t, d)[1..]
  {
    var s := [c] + t;
    if |s| >= |d| {
      assert s[..|d|][..1] == [c];
      assert d[..1] == d[..|d|][..1];
    }
    assert s[1..] == t;
  }

  /** A first character outside the set joins the first piece (one unfolding, kept apart for proof stability). */
  lemma OnCharsKeepFirst(s: string, cs: set<char>)
    requires s != [] && s[0] !in cs
    ensures SplitOnChars(s, cs) == [[s[0]] + SplitOnChars(s[1..], cs)[0]] + SplitOnChars(s[1..], cs)[1..]
  {
  }

  lemma ConsFirst(c: char, x: seq<string>, y: seq<string>)
    requires |x| >= 1
    ensures [[c] + x[0]] + x[1..] + y == [[c] + (x + y)[0]] + (x + y)[1..]
  {
    assert (x + y)[1..] == x[1..] + y;
  }

  /** Both sides of the step, with `r` the reference's pieces of the rest of `s`. */
  lemma KeepParts(s: string, cs: set<char>, c: char)
    requires s != [] && s[0] !in cs
    requires SplitEach(SplitOnChars(s[1..], cs), [c]) == SplitOnChars(s[1..], cs + {c})
    ensures var r := SplitOnChars(s[1..], cs);
      && SplitOnChars(s[1..], cs + {c}) == Split(r[0], [c]) + SplitEach(r[1..], [c])
      && SplitEach(SplitOnChars(s, cs), [c]) == Split([s[0]] + r[0], [c]) + SplitEach(r[1..], [c])
  {
    var d := [c];
    var r := SplitOnChars(s[1..], cs);
    var first := [s[0]] + r[0];
    assert [r[0]] + r[1..] == r;
    SplitEachAppend([r[0]], r[1..], d);
    SplitEachSingle(r[0], d);
    assert SplitOnChars(s, cs) == [first] + r[1..];
    SplitEachAppend([first], r[1..], d);
    SplitEachSingle(first, d);
  }

  /** The characters of a list of one-character delimiters. */
  function CharsOf(ds: seq<string>): (cs: set<char>)
    requires forall i :: 0 <= i < |ds| ==> |ds[i]| == 1
    ensures forall i :: 0 <= i < |ds| ==> ds[i][0] in cs
    ensures forall c :: c in cs ==> exists i :: 0 <= i < |ds| && ds[i] == [c]
  {
    if ds == [] then {} else
      assert ds[0] == [ds[0][0]];
      CharsOf(ds[1..]) + {ds[0][0]}
  }

  lemma {:induction false} SplitAllOnChars(s: string, cs: set<char>, ds: seq<string>)
    requires forall i :: 0 <= i < |ds| ==> |ds[i]| == 1
    ensures SplitAll(SplitOnChars(s, cs), ds) == SplitOnChars(s, cs + CharsOf(ds))
    decreases |ds|
  {
    if ds == [] {
      assert cs + CharsOf(ds) == cs;
    } else {
      var c := ds[0][0];
      assert ds[0] == [c];
      SplitEachOnChars(s, cs, c);
      SplitAllOnChars(s, cs + {c}, ds[1..]);
      assert cs + {c} + CharsOf(ds[1..]) == cs + CharsOf(ds);
    }
  }

  /**
   * With one-character delimiters the set overload cuts at every character
   * of the set, whatever the order the delimiters are applied in.
   */
  lemma SplitAnyOneChar(s: string, ds: seq<string>)
    requires DelimiterSet(ds)
    requires forall i :: 0 <= i < |ds| ==> |ds[i]| == 1
    ensures SplitAny(s, ds) == SplitOnChars(s, CharsOf(ds))
  {
    SplitOnCharsNone(s);
    SplitAllOnChars(s, {}, ds);
    assert {} + CharsOf(ds) == CharsOf(ds);
  }

  /** A piece free of `cs`, then a character of `cs`, is cut off at the front. */
  lemma {:induction false} SplitOnCharsFirstPiece(p: string, c: char, t: string, cs: set<char>)
    requires c in cs && forall j :: 0 <= j < |p| ==> p[j] !in cs
    ensures SplitOnChars(p + [c] + t, cs) == [p] + SplitOnChars(t, cs)
    decreases |p|
  {
    var s := p + [c] + t;
    if p != [] {
      assert s[1..] == p[1..] + [c] + t;
      SplitOnCharsFirstPiece(p[1..], c, t, cs);
      assert [p[0]] + p[1..] == p;
    } else {
      assert s[1..] == t;
    }
  }

  lemma {:induction false} SplitOnCharsNoMatch(s: string, cs: set<char>)
    requires forall j :: 0 <= j < |s| ==> s[j] !in cs
    ensures SplitOnChars(s, cs) == [s]
    decreases |s|
  {
    if s != [] {
      SplitOnCharsNoMatch(s[1..], cs);
      assert [s[0]] + s[1..] == s;
    }
  }

  // ---------------------------------------------------------------------------
  // Pieces free of delimiters, and the text rebuilt from pieces and cuts

  /** `t` holds no occurrence of `e`. */
  predicate FreeOf(t: string, e: string)
  {
    MatchFree(t, e, |t|)
  }

  /** Every piece of `ps` is free of `e`. */
  predicate AllFree(ps: seq<string>, e: string)
  {
    forall i :: 0 <= i < |ps| ==> FreeOf(ps[i], e)
  }

  /** The pieces put back together with `seps[i]` between `ps[i]` and `ps[i + 1]`. */
  function JoinWith(ps: seq<string>, seps: seq<string>): (s: string)
    requires |ps| >= 1 && |seps| == |ps| - 1
    decreases |ps|
  {
    if |ps| == 1 then ps[0] else ps[0] + seps[0] + JoinWith(ps[1..], seps[1..])
  }

  /** `n` copies of the delimiter `d`. */
  function Copies(d: string, n: nat): (r: seq<string>)
    ensures |r| == n && forall i :: 0 <= i < n ==> r[i] == d
  {
    if n == 0 then [] else [d] + Copies(d, n - 1)
  }

  /** Joining with one delimiter is joining with copies of it. */
  lemma {:induction false} JoinAsJoinWith(ps: seq<string>, d: string)
    requires |ps| >= 1
    ensures Join(ps, d) == JoinWith(ps, Copies(d, |ps| - 1))
    decreases |ps|
  {
    if |ps| > 1 {
      JoinAsJoinWith(ps[1..], d);
      assert Copies(d, |ps| - 1)[1..] == Copies(d, |ps| - 2);
    }
  }

  /** Two joined runs of pieces, with one more separator between them. */
  lemma {:induction false} JoinWithAppend(a: seq<string>, sa: seq<string>, x: string,
                                          b: seq<string>, sb: seq<string>)
    requires |a| >= 1 && |sa| == |a| - 1 && |b| >= 1 && |sb| == |b| - 1
    ensures JoinWith(a + b, sa + [x] + sb) == JoinWith(a, sa) + x + JoinWith(b, sb)
    decreases |a|
  {
    if |a| == 1 {
      assert (a + b)[1..] == b && (sa + [x] + sb)[1..] == sb;
    } else {
      JoinWithAppend(a[1..], sa[1..], x, b, sb);
      assert (a + b)[1..] == a[1..] + b;
      assert (sa + [x] + sb)[1..] == sa[1..] + [x] + sb;
    }
  }

  /** A character put in front of the first piece is put in front of the text. */
  lemma JoinWithFirstCons(c: char, ps: seq<string>, seps: seq<string>)
    requires |ps| >= 1 && |seps| == |ps| - 1
    ensures JoinWith([[c] + ps[0]] + ps[1..], seps) == [c] + JoinWith(ps, seps)
  {
    var qs := [[c] + ps[0]] + ps[1..];
    if |ps| > 1 {
      assert qs[1..] == ps[1..];
    }
  }

  /** A text free of `e` has a prefix free of `e`. */
  lemma FreePrefix(a: string, b: string, e: string)
    requires FreeOf(a + b, e)
    ensures FreeOf(a, e)
  {
    forall j: nat | j < |a| ensures !MatchAt(a, e, j) {
      if MatchAt(a, e, j) {
        assert (a + b)[j..j + |e|] == a[j..j + |e|];
        assert MatchAt(a + b, e, j);
      }
    }
  }

  /** A text free of `e` has a suffix free of `e`. */
  lemma FreeSuffix(a: string, b: string, e: string)
    requires FreeOf(a + b, e)
    ensures FreeOf(b, e)
  {
    forall j: nat | j < |b| ensures !MatchAt(b, e, j) {
      if MatchAt(b, e, j) {
        assert (a + b)[|a| + j..|a| + j + |e|] == b[j..j + |e|];
        assert MatchAt(a + b, e, |a| + j);
      }
    }
  }

  /** The pieces of a joined text free of `e` are free of `e`. */
  lemma {:induction false} JoinFreePieces(ps: seq<string>, d: string, e: string)
    requires |ps| >= 1 && FreeOf(Join(ps, d), e)
    ensures AllFree(ps, e)
    decreases |ps|
  {
    if |ps| > 1 {
      FreePrefix(ps[0] + d, Join(ps[1..], d), e);
      FreePrefix(ps[0], d, e);
      FreeSuffix(ps[0] + d, Join(ps[1..], d), e);
      JoinFreePieces(ps[1..], d, e);
      assert forall i :: 1 <= i < |ps| ==> ps[i] == ps[1..][i - 1];
    }
  }

  /** No piece of a split holds the delimiter it was split at. */
  lemma SplitPiecesFree(s: string, d: string)
    requires d != []
    ensures AllFree(Split(s, d), d)
  {
    var ps := Split(s, d);
    SplitIsSplit(s, d);
    forall i | 0 <= i < |ps| ensures FreeOf(ps[i], d) {
      if i < |ps| - 1 {
        forall j: nat | j < |ps[i]| ensures !MatchAt(ps[i], d, j) {
          if MatchAt(ps[i], d, j) {
            assert (ps[i] + d)[j..j + |d|] == ps[i][j..j + |d|];
            assert MatchAt(ps[i] + d, d, j);
          }
        }
      }
    }
  }

  /** Splitting a text free of `e` leaves pieces free of `e`. */
  lemma SplitKeepsFree(s: string, d: string, e: string)
    requires d != [] && FreeOf(s, e)
    ensures AllFree(Split(s, d), e)
  {
    JoinSplit(s, d);
    JoinFreePieces(Split(s, d), d, e);
  }

  /** Splitting the pieces of a vector keeps every piece free of `e`. */
  lemma {:induction false} SplitEachKeepsFree(v: seq<string>, d: string, e: string)
    requires d != [] && AllFree(v, e)
    ensures AllFree(SplitEach(v, d), e)
    decreases |v|
  {
    if v != [] {
      SplitKeepsFree(v[0], d, e);
      SplitEachKeepsFree(v[1..], d, e);
      AllFreeAppend(Split(v[0], d), SplitEach(v[1..], d), e);
    }
  }

  /** The pieces of the vector overload hold no occurrence of its delimiter. */
  lemma {:induction false} SplitEachFree(v: seq<string>, d: string)
    requires d != []
    ensures AllFree(SplitEach(v, d), d)
    decreases |v|
  {
    if v != [] {
      SplitPiecesFree(v[0], d);
      SplitEachFree(v[1..], d);
      AllFreeAppend(Split(v[0], d), SplitEach(v[1..], d), d);
    }
  }

  lemma AllFreeAppend(a: seq<string>, b: seq<string>, e: string)
    requires AllFree(a, e) && AllFree(b, e)
    ensures AllFree(a + b, e)
  {
    assert forall i :: |a| <= i < |a + b| ==> (a + b)[i] == b[i - |a|];
  }

  /** Later splits keep every piece free of `e`. */
  lemma {:induction false} SplitAllKeepsFree(ps: seq<string>, ds: seq<string>, e: string)
    requires forall i :: 0 <= i < |ds| ==> ds[i] != []
    requires AllFree(ps, e)
    ensures AllFree(SplitAll(ps, ds), e)
    decreases |ds|
  {
    if ds != [] {
      SplitEachKeepsFree(ps, ds[0], e);
      SplitAllKeepsFree(SplitEach(ps, ds[0]), ds[1..], e);
    }
  }

  /** After splitting at every delimiter of `ds`, no piece holds any of them. */
  lemma {:induction false} SplitAllFree(ps: seq<string>, ds: seq<string>, k: nat)
    requires forall i :: 0 <= i < |ds| ==> ds[i] != []
    requires k < |ds|
    ensures AllFree(SplitAll(ps, ds), ds[k])
    decreases |ds|
  {
    if k == 0 {
      SplitEachFree(ps, ds[0]);
      SplitAllKeepsFree(SplitEach(ps, ds[0]), ds[1..], ds[0]);
    } else {
      SplitAllFree(SplitEach(ps, ds[0]), ds[1..], k - 1);
    }
  }

  /**
   * With delimiters of any length, no piece of the set overload holds an
   * occurrence of any delimiter of the set.
   */
  lemma SplitAnyPiecesFree(s: string, ds: seq<string>)
    requires DelimiterSet(ds)
    ensures var ps := SplitAny(s, ds);
      forall i, k :: 0 <= i < |ps| && 0 <= k < |ds| ==> MatchFree(ps[i], ds[k], |ps[i]|)
  {
    forall k | 0 <= k < |ds| ensures AllFree(SplitAny(s, ds), ds[k]) {
      SplitAllFree([s], ds, k);
    }
  }

  /** Splitting each piece of a joined text rebuilds the same text, with `d` as the new separators. */
  lemma {:induction false} SplitEachRebuild(v: seq<string>, seps: seq<string>, d: string)
    returns (seps': seq<string>)
    requires d != [] && |v| >= 1 && |seps| == |v| - 1
    ensures |SplitEach(v, d)| >= 1 && |seps'| == |SplitEach(v, d)| - 1
    ensures JoinWith(SplitEach(v, d), seps') == JoinWith(v, seps)
    ensures forall i :: 0 <= i < |seps'| ==> seps'[i] == d || seps'[i] in seps
    decreases |v|
  {
    var first := Split(v[0], d);
    var ds := Copies(d, |first| - 1);
    JoinSplit(v[0], d);
    JoinAsJoinWith(first, d);
    if |v| == 1 {
      SplitEachSingle(v[0], d);
      seps' := ds;
    } else {
      var rest := SplitEachRebuild(v[1..], seps[1..], d);
      JoinWithAppend(first, ds, seps[0], SplitEach(v[1..], d), rest);
      seps' := ds + [seps[0]] + rest;
      assert forall i :: |ds| + 1 <= i < |seps'| ==> seps'[i] == rest[i - |ds| - 1];
      assert forall x :: x in seps[1..] ==> x in seps;
    }
  }

  /** Splitting at each delimiter in turn rebuilds the same text, with delimiters as the new separators. */
  lemma {:induction false} SplitAllRebuild(ps: seq<string>, seps: seq<string>, ds: seq<string>)
    returns (seps': seq<string>)
    requires forall i :: 0 <= i < |ds| ==> ds[i] != []
    requires |ps| >= 1 && |seps| == |ps| - 1
    ensures |SplitAll(ps, ds)| >= 1 && |seps'| == |SplitAll(ps, ds)| - 1
    ensures JoinWith(SplitAll(ps, ds), seps') == JoinWith(ps, seps)
    ensures forall i :: 0 <= i < |seps'| ==> seps'[i] in seps || seps'[i] in ds
    decreases |ds|
  {
    if ds == [] {
      seps' := seps;
    } else {
      var mid := SplitEachRebuild(ps, seps, ds[0]);
      seps' := SplitAllRebuild(SplitEach(ps, ds[0]), mid, ds[1..]);
      assert forall x :: x in ds[1..] ==> x in ds;
    }
  }

  /**
   * The pieces of the set overload, with a delimiter of the set between each
   * pair of neighbours, rebuild the text.
   */
  lemma SplitAnyRebuild(s: string, ds: seq<string>) returns (seps: seq<string>)
    requires DelimiterSet(ds)
    ensures |seps| == |SplitAny(s, ds)| - 1
    ensures forall i :: 0 <= i < |seps| ==> seps[i] in ds
    ensures JoinWith(SplitAny(s, ds), seps) == s
  {
    seps := SplitAllRebuild([s], [], ds);
  }

  // ---------------------------------------------------------------------------
  // The cases the tests check

  lemma SplitTrivial()
    ensures Split("trivial", " ") == ["trivial"]
  {
    NoMatch("trivial", " ");
    SplitNoMatch("trivial", " ");
  }

  /** Two pieces `a` and `b` around the only occurrence of a one-character delimiter. */
  lemma SplitTwoPieces(a: string, c: char, b: string)
    requires c !in a && c !in b
    ensures Split(a + [c] + b, [c]) == [a, b]
  {
    PieceFree(a, [c]);
    SplitFirstPiece(a, [c], b);
    NoMatch(b, [c]);
    SplitNoMatch(b, [c]);
  }

  lemma SplitOneSpace()
    ensures Split("one space", " ") == ["one", "space"]
  {
    assert "one" + [' '] + "space" == "one space";
    SplitTwoPieces("one", ' ', "space");
  }

  lemma SplitNewline()
    ensures Split("with other\ndelimiters", "\n") == ["with other", "delimiters"]
  {
    assert "with other" + ['\n'] + "delimiters" == "with other\ndelimiters";
    SplitTwoPieces("with other", '\n', "delimiters");
  }

  /** Leading, interior and trailing empty pieces are all kept. */
  lemma SplitKeepsEmptyPieces()
    ensures Split("e be ce", "e") == ["", " b", " c", ""]
  {
    assert "e" + " be ce" == "e be ce";
    SplitBeCe();
    SplitLeadingDelimiter("e", " be ce");
  }

  /** A delimiter at the very start cuts off an empty piece. */
  lemma SplitLeadingDelimiter(d: string, t: string)
    requires d != []
    ensures Split(d + t, d) == [""] + Split(t, d)
  {
    assert (d + t)[..|d|] == d && (d + t)[|d|..] == t;
  }

  lemma SplitBeCe()
    ensures Split(" be ce", "e") == [" b", " c", ""]
  {
    assert " b" + "e" + " ce" == " be ce";
    assert " c" + ['e'] + "" == " ce";
    SplitTwoPieces(" c", 'e', "");
    PieceFree(" b", "e");
    SplitFirstPiece(" b", "e", " ce");
  }

  /** A delimiter of several characters. */
  lemma SplitLongDelimiter()
    ensures Split("longer delimiter", "r d") == ["longe", "elimiter"]
  {
    assert "longe" + "r d" + "elimiter" == "longer delimiter";
    PieceFree("longe", "r d");
    SplitFirstPiece("longe", "r d", "elimiter");
    SplitElimiter();
  }

  /** The last piece holds 'r', but too near its end for "r d" to fit. */
  lemma SplitElimiter()
    ensures Split("elimiter", "r d") == ["elimiter"]
  {
    assert "elimit" + "er" == "elimiter";
    NoMatchIn("elimit", "er", "r d");
    SplitNoMatch("elimiter", "r d");
  }

  lemma SplitEachTrivial()
    ensures SplitEach(["trivial"], " ") == ["trivial"]
    ensures SplitEach(["one space"], " ") == ["one", "space"]
  {
    SplitEachSingle("trivial", " ");
    SplitTrivial();
    SplitEachSingle("one space", " ");
    SplitOneSpace();
  }

  lemma SplitEachSentences()
    ensures SplitEach(["more than", "one", "sentence here"], " ")
         == ["more", "than", "one", "sentence", "here"]
  {
    var d := " ";
    assert ["more than"] + (["one"] + ["sentence here"]) == ["more than", "one", "sentence here"];
    assert ["more", "than"] + (["one"] + ["sentence", "here"]) == ["more", "than", "one", "sentence", "here"];
    SplitTwoWordElements();
    NoMatch("one", d);
    SplitNoMatch("one", d);
    SplitEachSingle("more than", d);
    SplitEachSingle("one", d);
    SplitEachSingle("sentence here", d);
    SplitEachAppend(["one"], ["sentence here"], d);
    SplitEachAppend(["more than"], ["one"] + ["sentence here"], d);
  }

  /** The two-word elements of the sentence vector, each split at its space. */
  lemma SplitTwoWordElements()
    ensures Split("more than", " ") == ["more", "than"]
    ensures Split("sentence here", " ") == ["sentence", "here"]
  {
    assert "more" + [' '] + "than" == "more than";
    SplitTwoPieces("more", ' ', "than");
    assert "sentence" + [' '] + "here" == "sentence here";
    SplitTwoPieces("sentence", ' ', "here");
  }

  /** An element starting with the delimiter gives an empty piece. */
  lemma SplitEachNewlines()
    ensures SplitEach(["other\ndelimiter", "\nhere"], "\n") == ["other", "delimiter", "", "here"]
  {
    var d := "\n";
    assert ["other\ndelimiter"] + ["\nhere"] == ["other\ndelimiter", "\nhere"];
    assert ["other", "delimiter"] + ["", "here"] == ["other", "delimiter", "", "here"];
    assert "other" + ['\n'] + "delimiter" == "other\ndelimiter";
    assert "" + ['\n'] + "here" == "\nhere";
    SplitTwoPieces("other", '\n', "delimiter");
    SplitTwoPieces("", '\n', "here");
    SplitEachSingle("other\ndelimiter", d);
    SplitEachSingle("\nhere", d);
    SplitEachAppend(["other\ndelimiter"], ["\nhere"], d);
  }

  lemma SplitAnySingleDelimiter()
    ensures SplitAny("trivial", [" "]) == ["trivial"]
    ensures SplitAny("one space", [" "]) == ["one", "space"]
  {
    assert SplitAll(["trivial"], [" "]) == SplitEach(["trivial"], " ");
    assert SplitAll(["one space"], [" "]) == SplitEach(["one space"], " ");
    SplitEachTrivial();
  }

  /** The set {" ", "\n"}, iterated as "\n" first, then " ". */
  lemma SplitAnyTwoDelimiters()
    ensures SplitAny("with other\ndelimiters", ["\n", " "]) == ["with", "other", "delimiters"]
  {
    var ds := ["\n", " "];
    assert DelimiterSet(ds) by {
      assert LexLess("\n", " ");
    }
    assert CharsOf(ds) == {'\n', ' '};
    SplitAnyOneChar("with other\ndelimiters", ds);
    SplitOnCharsWithOther();
  }

  lemma SplitOnCharsWithOther()
    ensures SplitOnChars("with other\ndelimiters", {'\n', ' '}) == ["with", "other", "delimiters"]
  {
    var cs := {'\n', ' '};
    assert "with" + [' '] + "other\ndelimiters" == "with other\ndelimiters";
    assert forall j :: 0 <= j < |"with"| ==> "with"[j] !in cs;
    SplitOnCharsFirstPiece("with", ' ', "other\ndelimiters", cs);
    SplitOnCharsOtherDelimiters();
  }

  lemma SplitOnCharsOtherDelimiters()
    ensures SplitOnChars("other\ndelimiters", {'\n', ' '}) == ["other", "delimiters"]
  {
    var cs := {'\n', ' '};
    assert "other" + ['\n'] + "delimiters" == "other\ndelimiters";
    assert forall j :: 0 <= j < |"other"| ==> "other"[j] !in cs;
    assert forall j :: 0 <= j < |"delimiters"| ==> "delimiters"[j] !in cs;
    SplitOnCharsFirstPiece("other", '\n', "delimiters", cs);
    SplitOnCharsNoMatch("delimiters", cs);
  }
}
