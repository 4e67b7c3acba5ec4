/** The strict order on strings that the stores sort and resume by, and ordered listings of finite sets. */
module StringOrder {

  predicate Less(a: string, b: string) {
    b != "" && (a == "" || a[0] < b[0] || (a[0] == b[0] && Less(a[1..], b[1..])))
  }

  lemma {:induction false} LessIrreflexive(a: string)
    ensures !Less(a, a)
  {
    if a != "" {
      LessIrreflexive(a[1..]);
    }
  }

  lemma {:induction false} LessTransitive(a: string, b: string, c: string)
    requires Less(a, b) && Less(b, c)
    ensures Less(a, c)
  {
    if a != "" && b != "" && c != "" && a[0] == b[0] == c[0] {
      LessTransitive(a[1..], b[1..], c[1..]);
    }
  }

  lemma {:induction false} LessTotal(a: string, b: string)
    ensures Less(a, b) || a == b || Less(b, a)
  {
    if a != "" && b != "" && a[0] == b[0] {
      LessTotal(a[1..], b[1..]);
      assert a == [a[0]] + a[1..] && b == [b[0]] + b[1..];
    }
  }

  /** A string precedes those it is a proper beginning of, and otherwise the first difference decides. */
  lemma {:induction false} LessExact(a: string, b: string)
    ensures Less(a, b) <==> (a <= b && a != b) || exists i :: Differs(a, b, i) && a[i] < b[i]
    decreases |a|
  {
    if a != "" && b != "" {
      var x, y := a[1..], b[1..];
      assert a == [a[0]] + x && b == [b[0]] + y;
      if a[0] == b[0] {
        LessExact(x, y);
        assert a <= b <==> x <= y;
        forall i | Differs(x, y, i) ensures Differs(a, b, i + 1)
        {
        }
        forall i | Differs(a, b, i) ensures i > 0 && Differs(x, y, i - 1)
        {
        }
      } else {
        assert Differs(a, b, 0);
        assert forall i :: Differs(a, b, i) ==> i == 0;
      }
    }
  }

  /** Position `i` is the first at which the strings differ. */
  predicate Differs(a: string, b: string, i: int) {
    0 <= i < |a| && i < |b| && a[i] != b[i] && forall j :: 0 <= j < i ==> a[j] == b[j]
  }

  /** Strictly ascending; so in particular without repetitions. */
  predicate Ascending(xs: seq<string>) {
    forall i, j :: 0 <= i < j < |xs| ==> Less(xs[i], xs[j])
  }

  lemma {:induction false} LeastExists(keys: set<string>) returns (m: string)
    requires keys != {}
    ensures m in keys && forall k :: k in keys ==> k == m || Less(m, k)
    decreases keys
  {
    var one :| one in keys;
    var rest := keys - {one};
    m := one;
    assert forall k :: k in keys ==> k == one || k in rest;
    if rest != {} {
      var n := LeastExists(rest);
      LessTotal(one, n);
      m := if Less(n, one) then n else one;
      forall k | k in keys && k != m ensures Less(m, k)
      {
        if m == one && k != n {
          assert k in rest;
          LessTransitive(one, n, k);
        } else {
          assert k == one || k in rest;
        }
      }
    }
  }

  /** The keys in ascending order. */
  ghost function Sorted(keys: set<string>): (xs: seq<string>)
    ensures |xs| == |keys|
    ensures forall k :: k in xs <==> k in keys
    decreases keys
  {
    if keys == {} then []
    else
      LeastExistsForSome(keys);
      var m :| m in keys && forall k :: k in keys ==> k == m || Less(m, k);
      [m] + Sorted(keys - {m})
  }

  lemma LeastExistsForSome(keys: set<string>)
    requires keys != {}
    ensures exists m :: m in keys && forall k :: k in keys ==> k == m || Less(m, k)
  {
    var m := LeastExists(keys);
  }

  lemma {:induction false} SortedAscends(keys: set<string>)
    ensures Ascending(Sorted(keys))
    decreases keys
  {
    if keys != {} {
      LeastExistsForSome(keys);
      var xs := Sorted(keys);
      var m := xs[0];
      assert xs[1..] == Sorted(keys - {m});
      SortedAscends(keys - {m});
      forall i, j | 0 <= i < j < |xs| ensures Less(xs[i], xs[j])
      {
        if i > 0 {
          assert Less(xs[1..][i - 1], xs[1..][j - 1]);
        } else {
          assert xs[j] == xs[1..][j - 1] && xs[j] in keys - {m};
        }
      }
    }
  }

  lemma Element(xs: seq<string>) returns (k: string)
    requires xs != []
    ensures k in xs
  {
    k := xs[0];
  }

  /** An ascending sequence is determined by its elements. */
  lemma {:induction false} AscendingUnique(xs: seq<string>, ys: seq<string>)
    requires Ascending(xs) && Ascending(ys) && forall k :: k in xs <==> k in ys
    ensures xs == ys
    decreases |xs|
  {
    if xs == [] {
      if ys != [] {
        var k := Element(ys);
        assert false;
      }
    } else {
      assert xs[0] in ys && ys != [] && ys[0] in xs;
      if xs[0] != ys[0] {
        var i, j :| 0 <= i < |ys| && ys[i] == xs[0] && 0 <= j < |xs| && xs[j] == ys[0];
        LessIrreflexive(ys[0]);
        LessTransitive(ys[0], xs[0], ys[0]);
      }
      LessIrreflexive(xs[0]);
      forall k ensures k in xs[1..] <==> k in ys[1..]
      {
        if k in xs[1..] {
          var i :| 0 <= i < |xs[1..]| && xs[1..][i] == k;
          assert Less(xs[0], xs[i + 1]) && k in ys;
        }
        if k in ys[1..] {
          var i :| 0 <= i < |ys[1..]| && ys[1..][i] == k;
          assert Less(ys[0], ys[i + 1]) && k in xs;
        }
      }
      AscendingUnique(xs[1..], ys[1..]);
    }
  }
}
