/** Duplicate-free sequences and their element sets, defined along the list. */
module Lists {

  function Elems<T>(s: seq<T>): set<T> {
    if s == [] then {} else {s[0]} + Elems(s[1..])
  }

  predicate NoDup<T(==)>(s: seq<T>) {
    s == [] || (s[0] !in Elems(s[1..]) && NoDup(s[1..]))
  }

  lemma {:induction false} ElemsIn<T>(s: seq<T>, t: T)
    ensures t in Elems(s) <==> t in s
  {
    if s != [] {
      ElemsIn(s[1..], t);
      assert s == [s[0]] + s[1..];
    }
  }

  lemma ElemsSet<T>(s: seq<T>)
    ensures Elems(s) == set t | t in s
  {
    forall t | t in Elems(s) || t in s ensures t in Elems(s) && t in s {
      ElemsIn(s, t);
    }
  }

  lemma {:induction false} Concat<T>(a: seq<T>, b: seq<T>)
    ensures Elems(a + b) == Elems(a) + Elems(b)
    ensures NoDup(a + b) <==> NoDup(a) && NoDup(b) && Elems(a) !! Elems(b)
  {
    if a == [] {
      assert a + b == b;
    } else {
      Concat(a[1..], b);
      assert (a + b)[1..] == a[1..] + b;
    }
  }

  lemma {:induction false} NoDupIndex<T>(s: seq<T>)
    ensures NoDup(s) <==> forall i, j :: 0 <= i < j < |s| ==> s[i] != s[j]
  {
    if s != [] {
      NoDupIndex(s[1..]);
      ElemsIn(s[1..], s[0]);
      if NoDup(s) {
        forall i, j | 0 <= i < j < |s| ensures s[i] != s[j] {
          assert s[j] == s[1..][j - 1];
          assert i > 0 ==> s[i] == s[1..][i - 1];
        }
      } else if s[0] in s[1..] {
        var j :| 0 <= j < |s[1..]| && s[1..][j] == s[0];
        assert s[j + 1] == s[0];
      } else {
        var i, j :| 0 <= i < j < |s[1..]| && s[1..][i] == s[1..][j];
        assert s[i + 1] == s[j + 1];
      }
    }
  }
}
