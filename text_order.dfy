/** Python's ordering of `str` values (lexicographic by code point) and the
    key order that `json.dumps(..., sort_keys=True)` gives a dict. */
module TextOrder {

  /** `a <= b` on Python strings: compare code points left to right; a proper
      prefix comes first. */
  predicate LessEq(a: string, b: string)
  {
    a == [] || (b != [] && (a[0] < b[0] || (a[0] == b[0] && LessEq(a[1..], b[1..]))))
  }

  predicate Less(a: string, b: string)
  {
    LessEq(a, b) && a != b
  }

  lemma {:induction false} Reflexive(a: string)
    ensures LessEq(a, a)
  {
    if a != [] {
      Reflexive(a[1..]);
    }
  }

  lemma {:induction false} Antisymmetric(a: string, b: string)
    requires LessEq(a, b) && LessEq(b, a)
    ensures a == b
  {
    if a != [] && b != [] {
      Antisymmetric(a[1..], b[1..]);
    }
  }

  lemma {:induction false} Transitive(a: string, b: string, c: string)
    requires LessEq(a, b) && LessEq(b, c)
    ensures LessEq(a, c)
  {
    if a != [] && b != [] && c != [] && a[0] == b[0] == c[0] {
      Transitive(a[1..], b[1..], c[1..]);
    }
  }

  lemma {:induction false} Total(a: string, b: string)
    ensures LessEq(a, b) || LessEq(b, a)
  {
    if a != [] && b != [] && a[0] == b[0] {
      Total(a[1..], b[1..]);
    }
  }

  lemma AntisymmetricAll()
    ensures forall a, b :: LessEq(a, b) && LessEq(b, a) ==> a == b
  {
    forall a, b | LessEq(a, b) && LessEq(b, a)
      ensures a == b
    {
      Antisymmetric(a, b);
    }
  }

  /** `k` is the least element of `s`. */
  predicate IsLeast(k: string, s: set<string>)
  {
    k in s && forall x | x in s :: LessEq(k, x)
  }

  /** Every finite non-empty set of strings has a least element. */
  lemma {:induction false} LeastExists(s: set<string>)
    requires s != {}
    ensures exists k :: IsLeast(k, s)
    decreases |s|
  {
    var y :| y in s;
    if s == {y} {
      assert IsLeast(y, s) by {
        Reflexive(y);
      }
    } else {
      var rest := s - {y};
      LeastExists(rest);
      var k :| IsLeast(k, rest);
      if LessEq(k, y) {
        assert IsLeast(k, s) by {
          forall x | x in s
            ensures LessEq(k, x)
          {
            if x != y {
              assert x in rest;
            }
          }
        }
      } else {
        assert IsLeast(y, s) by {
          Total(k, y);
          forall x | x in s
            ensures LessEq(y, x)
          {
            if x == y {
              Reflexive(y);
            } else {
              assert x in rest;
              Transitive(y, k, x);
            }
          }
        }
      }
    }
  }

  /** The least string of a non-empty set. */
  function Least(s: set<string>): (k: string)
    requires s != {}
    ensures IsLeast(k, s)
  {
    LeastExists(s);
    AntisymmetricAll();
    var k :| IsLeast(k, s);
    k
  }

  predicate StrictlyIncreasing(ks: seq<string>)
  {
    forall i, j | 0 <= i < j < |ks| :: Less(ks[i], ks[j])
  }

  /** No key of a strictly increasing sequence repeats an earlier one. */
  lemma IncreasingDistinct(ks: seq<string>, i: int)
    requires StrictlyIncreasing(ks)
    requires 0 <= i < |ks|
    ensures forall h | 0 <= h < i :: ks[h] != ks[i]
  {
    forall h | 0 <= h < i
      ensures ks[h] != ks[i]
    {
      assert Less(ks[h], ks[i]);
    }
  }

  /** The keys of a dict in the order `sort_keys=True` writes them. */
  function SortedKeys(s: set<string>): (ks: seq<string>)
    ensures StrictlyIncreasing(ks)
    ensures forall k :: k in ks <==> k in s
    ensures |ks| == |s|
    decreases |s|
  {
    if s == {} then []
    else
      var k := Least(s);
      var rest := SortedKeys(s - {k});
      assert forall j | 0 <= j < |rest| :: Less(k, rest[j]) by {
        forall j | 0 <= j < |rest|
          ensures Less(k, rest[j])
        {
          assert rest[j] in s - {k};
        }
      }
      PrependIncreasing(k, rest);
      [k] + rest
  }

  lemma PrependIncreasing(k: string, rest: seq<string>)
    requires StrictlyIncreasing(rest)
    requires forall j | 0 <= j < |rest| :: Less(k, rest[j])
    ensures StrictlyIncreasing([k] + rest)
  {
    var ks := [k] + rest;
    forall i, j | 0 <= i < j < |ks|
      ensures Less(ks[i], ks[j])
    {
      if i > 0 {
        assert ks[i] == rest[i - 1] && ks[j] == rest[j - 1];
      }
    }
  }
}
