/** Go's strings.Split(s, "--"), and strings.Join(parts, "--"), which undoes it. */
module GoStrings {
  import opened ByteStrings

  const SEP: Bytes := [DASH, DASH]

  /** An occurrence of "--" somewhere in s. */
  predicate ContainsSep(s: Bytes) {
    exists i :: 0 <= i < |s| - 1 && s[i] == DASH && s[i + 1] == DASH
  }

  /** Cuts s at every "--", scanning left to right without overlap; never empty. */
  function Split(s: Bytes): (parts: seq<Bytes>)
    ensures |parts| >= 1
    decreases |s|
  {
    if |s| < 2 then [s]
    else if s[0] == DASH && s[1] == DASH then [[]] + Split(s[2..])
    else
      var rest := Split(s[1..]);
      [[s[0]] + rest[0]] + rest[1..]
  }

  function Join(parts: seq<Bytes>): Bytes
    requires |parts| >= 1
    decreases |parts|
  {
    if |parts| == 1 then parts[0] else parts[0] + SEP + Join(parts[1..])
  }

  lemma JoinUnfold(parts: seq<Bytes>)
    requires |parts| > 1
    ensures Join(parts) == parts[0] + SEP + Join(parts[1..])
  {
  }

  /** Prepending a byte to the first part prepends it to the joined string. */
  lemma JoinPrepend(c: byte, rest: seq<Bytes>)
    requires |rest| >= 1
    ensures Join([[c] + rest[0]] + rest[1..]) == [c] + Join(rest)
  {
    var parts := [[c] + rest[0]] + rest[1..];
    if |rest| > 1 {
      var j := Join(rest[1..]);
      assert parts[1..] == rest[1..];
      JoinUnfold(parts);
      JoinUnfold(rest);
      SepAssoc([c], rest[0], j);
    }
  }

  lemma SepAssoc(x: Bytes, y: Bytes, z: Bytes)
    ensures (x + y) + SEP + z == x + (y + SEP + z)
  {
  }

  /** Joining the parts with "--" gives back the string. */
  lemma {:induction false} JoinSplit(s: Bytes)
    ensures Join(Split(s)) == s
    decreases |s|
  {
    if |s| < 2 {
    } else if s[0] == DASH && s[1] == DASH {
      var tail := Split(s[2..]);
      JoinSplit(s[2..]);
      assert ([[]] + tail)[0] == [] && ([[]] + tail)[1..] == tail;
      assert s == SEP + s[2..];
    } else {
      JoinSplit(s[1..]);
      JoinPrepend(s[0], Split(s[1..]));
      assert s == [s[0]] + s[1..];
    }
  }

  /** Without a separator the string is its only part. */
  lemma {:induction false} SplitWithoutSep(s: Bytes)
    requires !ContainsSep(s)
    ensures Split(s) == [s]
    decreases |s|
  {
    if |s| >= 2 {
      assert !(s[0] == DASH && s[1] == DASH);
      assert !ContainsSep(s[1..]) by {
        forall i | 0 <= i < |s[1..]| - 1
          ensures !(s[1..][i] == DASH && s[1..][i + 1] == DASH)
        {
          assert s[1..][i] == s[i + 1] && s[1..][i + 1] == s[i + 2];
        }
      }
      SplitWithoutSep(s[1..]);
      assert s == [s[0]] + s[1..];
    }
  }

  /** With a separator there are at least two parts. */
  lemma {:induction false} SplitWithSep(s: Bytes)
    requires ContainsSep(s)
    ensures |Split(s)| >= 2
    decreases |s|
  {
    var i :| 0 <= i < |s| - 1 && s[i] == DASH && s[i + 1] == DASH;
    if !(s[0] == DASH && s[1] == DASH) {
      assert i >= 1;
      assert s[1..][i - 1] == s[i] && s[1..][i] == s[i + 1];
      SplitWithSep(s[1..]);
    }
  }

  /** Split yields a single part exactly when the string has no "--". */
  lemma SplitSingle(s: Bytes)
    ensures |Split(s)| == 1 <==> !ContainsSep(s)
  {
    if ContainsSep(s) { SplitWithSep(s); } else { SplitWithoutSep(s); }
  }

  /** A leading part without any '-' followed by "--" is split off as it is. */
  lemma {:induction false} SplitAfterUndashed(a: Bytes, b: Bytes)
    requires NoDash(a)
    ensures Split(a + SEP + b) == [a] + Split(b)
    decreases |a|
  {
    var s := a + SEP + b;
    if |a| == 0 {
      assert s == SEP + b;
      assert s[2..] == b;
    } else {
      assert s[0] == a[0] && s[0] != DASH;
      assert s[1..] == a[1..] + SEP + b;
      SplitAfterUndashed(a[1..], b);
      var rest := Split(s[1..]);
      assert rest[0] == a[1..] && rest[1..] == Split(b);
      assert [a[0]] + a[1..] == a;
    }
  }

  /** The two halves of a signed string are recovered by Split. */
  lemma SplitPair(a: Bytes, b: Bytes)
    requires NoDash(a) && !ContainsSep(b)
    ensures Split(a + SEP + b) == [a, b]
  {
    SplitAfterUndashed(a, b);
    SplitWithoutSep(b);
  }

  /** The first part is a prefix of the string. */
  lemma {:induction false} FirstPartPrefix(s: Bytes)
    ensures Split(s)[0] <= s
    decreases |s|
  {
    if |s| >= 2 && !(s[0] == DASH && s[1] == DASH) {
      FirstPartPrefix(s[1..]);
      assert s == [s[0]] + s[1..];
    }
  }

  /** A byte in front of a part makes no "--" unless it is '-' and the part starts with '-'. */
  lemma ConsNoSep(c: byte, p: Bytes)
    requires !ContainsSep(p) && (c != DASH || p == [] || p[0] != DASH)
    ensures !ContainsSep([c] + p)
  {
    var q := [c] + p;
    forall i | 0 <= i < |q| - 1
      ensures !(q[i] == DASH && q[i + 1] == DASH)
    {
      if i > 0 {
        assert q[i] == p[i - 1] && q[i + 1] == p[i];
      }
    }
  }

  /** Split cuts at every "--": no part contains one. */
  lemma {:induction false} PartsHaveNoSep(s: Bytes)
    ensures forall p :: p in Split(s) ==> !ContainsSep(p)
    decreases |s|
  {
    if |s| < 2 {
      assert Split(s) == [s];
    } else if s[0] == DASH && s[1] == DASH {
      PartsHaveNoSep(s[2..]);
      assert !ContainsSep([]);
    } else {
      var rest := Split(s[1..]);
      PartsHaveNoSep(s[1..]);
      FirstPartPrefix(s[1..]);
      assert rest[0] in rest;
      if rest[0] != [] {
        assert rest[0][0] == s[1];
      }
      ConsNoSep(s[0], rest[0]);
      forall p | p in Split(s)
        ensures !ContainsSep(p)
      {
        if p != [s[0]] + rest[0] {
          assert p in rest[1..];
        }
      }
    }
  }

  /** Every part but the last stops short of a '-': Split takes the leftmost "--" each time. */
  predicate CutLeftmost(ps: seq<Bytes>) {
    forall i :: 0 <= i < |ps| - 1 ==> ps[i] == [] || ps[i][|ps[i]| - 1] != DASH
  }

  /** An empty first part followed by more parts comes from a leading "--". */
  lemma EmptyFirstPart(t: Bytes)
    requires Split(t)[0] == [] && |Split(t)| > 1
    ensures |t| >= 2 && t[0] == DASH && t[1] == DASH
  {
  }

  /** Split cuts each "--" as early as it can, so within "---" the cut comes first. */
  lemma {:induction false} PartsNotDashEnded(s: Bytes)
    ensures CutLeftmost(Split(s))
    decreases |s|
  {
    if |s| >= 2 && s[0] == DASH && s[1] == DASH {
      PartsNotDashEnded(s[2..]);
      var ps := Split(s);
      assert ps == [[]] + Split(s[2..]);
      forall i | 0 <= i < |ps| - 1
        ensures ps[i] == [] || ps[i][|ps[i]| - 1] != DASH
      {
        if i > 0 {
          assert ps[i] == Split(s[2..])[i - 1];
        }
      }
    } else if |s| >= 2 {
      var rest := Split(s[1..]);
      PartsNotDashEnded(s[1..]);
      var ps := Split(s);
      assert ps == [[s[0]] + rest[0]] + rest[1..];
      forall i | 0 <= i < |ps| - 1
        ensures ps[i] == [] || ps[i][|ps[i]| - 1] != DASH
      {
        if i > 0 {
          assert ps[i] == rest[i];
        } else if rest[0] == [] {
          EmptyFirstPart(s[1..]);
          assert ps[0] == [s[0]];
        } else {
          assert ps[0][|ps[0]| - 1] == rest[0][|rest[0]| - 1];
        }
      }
    }
  }

  lemma NoSepTail(a: Bytes)
    requires |a| > 0 && !ContainsSep(a)
    ensures !ContainsSep(a[1..])
  {
    forall i | 0 <= i < |a[1..]| - 1
      ensures !(a[1..][i] == DASH && a[1..][i + 1] == DASH)
    {
      assert a[1..][i] == a[i + 1] && a[1..][i + 1] == a[i + 2];
    }
  }

  /** A leading part with no "--" that does not end in '-', then "--": the cut falls right there. */
  lemma {:induction false} SplitAfterPart(a: Bytes, b: Bytes)
    requires !ContainsSep(a) && (a == [] || a[|a| - 1] != DASH)
    ensures Split(a + SEP + b) == [a] + Split(b)
    decreases |a|
  {
    var s := a + SEP + b;
    if |a| == 0 {
      assert s == SEP + b;
      assert s[2..] == b;
    } else {
      assert s[0] == a[0];
      if |a| >= 2 {
        assert s[1] == a[1];
        assert !(a[0] == DASH && a[1] == DASH);
      } else {
        assert a[0] != DASH;
      }
      assert s[1..] == a[1..] + SEP + b;
      NoSepTail(a);
      SplitAfterPart(a[1..], b);
      var rest := Split(s[1..]);
      assert rest[0] == a[1..] && rest[1..] == Split(b);
      assert [a[0]] + a[1..] == a;
    }
  }

  /**
   * Split is the only cutting with these properties: the parts join back to
   * s, none contains "--", and every cut is the leftmost one available.
   */
  lemma {:induction false} SplitUnique(s: Bytes, ps: seq<Bytes>)
    requires |ps| >= 1 && Join(ps) == s
    requires forall p :: p in ps ==> !ContainsSep(p)
    requires CutLeftmost(ps)
    ensures ps == Split(s)
    decreases |ps|
  {
    if |ps| == 1 {
      assert ps[0] in ps;
      SplitWithoutSep(s);
    } else {
      var tail := ps[1..];
      assert ps[0] in ps;
      assert forall p :: p in tail ==> p in ps;
      assert CutLeftmost(tail) by {
        forall i | 0 <= i < |tail| - 1
          ensures tail[i] == [] || tail[i][|tail[i]| - 1] != DASH
        {
          assert tail[i] == ps[i + 1];
        }
      }
      SplitUnique(Join(tail), tail);
      JoinUnfold(ps);
      SplitAfterPart(ps[0], Join(tail));
      assert ps == [ps[0]] + tail;
    }
  }
}
