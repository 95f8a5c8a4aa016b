/**
 * The order of `ORDER BY moduleNumber ASC` on a TEXT column with SQLite's
 * default BINARY collation: the UTF-8 bytes are compared like `memcmp`, and
 * a proper prefix sorts first. UTF-8 preserves code-point order, so this is
 * the lexicographic order of the strings' characters.
 */
module LexOrder {

  /** `a` sorts strictly before `b`; a proper prefix sorts before its extensions. */
  predicate Less(a: string, b: string)
    ensures Less(a, b) ==> a != b
    ensures a < b ==> Less(a, b)
    decreases |a|
  {
    if a == [] then b != []
    else if b == [] then false
    else if a[0] != b[0] then a[0] < b[0]
    else Less(a[1..], b[1..])
  }

  lemma {:induction false} LessIrreflexive(a: string)
    ensures !Less(a, a)
    decreases |a|
  {
    if a != [] {
      LessIrreflexive(a[1..]);
    }
  }

  lemma {:induction false} LessAsymmetric(a: string, b: string)
    requires Less(a, b)
    ensures !Less(b, a)
    decreases |a|
  {
    if a != [] && b != [] && a[0] == b[0] {
      LessAsymmetric(a[1..], b[1..]);
    }
  }

  lemma {:induction false} LessTransitive(a: string, b: string, c: string)
    requires Less(a, b) && Less(b, c)
    ensures Less(a, c)
    decreases |a|
  {
    if a != [] && a[0] == b[0] && b[0] == c[0] {
      LessTransitive(a[1..], b[1..], c[1..]);
    }
  }

  /** Any two distinct strings are ordered one way or the other. */
  lemma {:induction false} LessTotal(a: string, b: string)
    requires a != b
    ensures Less(a, b) || Less(b, a)
    decreases |a|
  {
    if a != [] && b != [] && a[0] == b[0] {
      assert a == [a[0]] + a[1..] && b == [b[0]] + b[1..];
      LessTotal(a[1..], b[1..]);
    }
  }

  /** The comparison is on text, not on numbers: "M10" sorts before "M9". */
  lemma TextNotNumericOrder()
    ensures Less("M10", "M9") && !Less("M9", "M10")
    ensures Less("M106", "M223") && Less("M223", "M335")
  {
  }

  /** Strictly ascending, hence without duplicates. */
  ghost predicate StrictlySorted(s: seq<string>) {
    forall i, j :: 0 <= i < j < |s| ==> Less(s[i], s[j])
  }

  /** `m` sorts before every other element of `ks`. */
  ghost predicate IsLeast(m: string, ks: set<string>) {
    m in ks && forall k :: k in ks && k != m ==> Less(m, k)
  }

  /** Every non-empty finite set of strings has a least element. */
  lemma {:induction false} LeastExists(ks: set<string>)
    requires ks != {}
    ensures exists m :: IsLeast(m, ks)
    decreases ks
  {
    var x :| x in ks;
    if ks != {x} {
      LeastExists(ks - {x});
      var m :| IsLeast(m, ks - {x});
      if Less(x, m) {
        forall k | k in ks && k != x
          ensures Less(x, k)
        {
          if k != m {
            LessTransitive(x, m, k);
          }
        }
        assert IsLeast(x, ks);
      } else {
        LessTotal(x, m);
        assert IsLeast(m, ks);
      }
    } else {
      assert IsLeast(x, ks);
    }
  }

  /** The least element is unique. */
  lemma LeastUnique(m: string, m': string, ks: set<string>)
    requires IsLeast(m, ks) && IsLeast(m', ks)
    ensures m == m'
  {
    if m != m' {
      LessAsymmetric(m, m');
    }
  }

  /** The least of the non-empty set `ks`. */
  ghost function Least(ks: set<string>): (m: string)
    requires ks != {}
    ensures IsLeast(m, ks)
  {
    LeastExists(ks);
    var m :| IsLeast(m, ks);
    m
  }

  /** The keys `ks` in ascending order, each exactly once. */
  ghost function SortedKeys(ks: set<string>): (r: seq<string>)
    ensures |r| == |ks|
    ensures forall i :: 0 <= i < |r| ==> r[i] in ks
    ensures forall k :: k in ks ==> k in r
    ensures StrictlySorted(r)
    decreases ks
  {
    if ks == {} then [] else [Least(ks)] + SortedKeys(ks - {Least(ks)})
  }

  /** The head of a strictly sorted sequence of exactly the keys `ks` is their least element. */
  lemma FirstIsLeast(s: seq<string>, ks: set<string>)
    requires s != [] && StrictlySorted(s)
    requires forall i :: 0 <= i < |s| ==> s[i] in ks
    requires forall k :: k in ks ==> k in s
    ensures IsLeast(s[0], ks)
  {
    forall k | k in ks && k != s[0]
      ensures Less(s[0], k)
    {
      var j :| 0 <= j < |s| && s[j] == k;
      assert j != 0;
    }
  }

  /** Without its head, such a sequence holds exactly the other keys, still strictly sorted. */
  lemma TailKeys(s: seq<string>, ks: set<string>)
    requires s != [] && StrictlySorted(s)
    requires forall i :: 0 <= i < |s| ==> s[i] in ks
    requires forall k :: k in ks ==> k in s
    ensures StrictlySorted(s[1..])
    ensures forall i :: 0 <= i < |s[1..]| ==> s[1..][i] in ks - {s[0]}
    ensures forall k :: k in ks - {s[0]} ==> k in s[1..]
  {
    LessIrreflexive(s[0]);
    forall i | 0 <= i < |s[1..]|
      ensures s[1..][i] in ks - {s[0]}
    {
      assert Less(s[0], s[i + 1]);
    }
    forall k | k in ks - {s[0]}
      ensures k in s[1..]
    {
      var j :| 0 <= j < |s| && s[j] == k;
      assert s[1..][j - 1] == k;
    }
  }

  /**
   * The ascending listing is determined by its keys: any strictly sorted
   * sequence holding exactly the keys `ks` is `SortedKeys(ks)`.
   */
  lemma {:induction false} SortedKeysUnique(s: seq<string>, ks: set<string>)
    requires StrictlySorted(s)
    requires forall i :: 0 <= i < |s| ==> s[i] in ks
    requires forall k :: k in ks ==> k in s
    ensures s == SortedKeys(ks)
    decreases |s|
  {
    if s == [] {
      assert ks == {};
    } else {
      assert s[0] in ks;
      var m := Least(ks);
      FirstIsLeast(s, ks);
      LeastUnique(m, s[0], ks);
      TailKeys(s, ks);
      SortedKeysUnique(s[1..], ks - {m});
      calc {
        SortedKeys(ks);
        [m] + SortedKeys(ks - {m});
        [s[0]] + s[1..];
        s;
      }
    }
  }
}
