/** How setting, deleting and looking up object members interact. */
module MemberLaws {
  import opened Outcomes
  import opened Json

  lemma {:induction false} GetSet(ms: seq<Member>, k: string, v: Value, x: string)
    ensures Get(SetMember(ms, k, v), x) == if x == k then Some(v) else Get(ms, x)
  {
    if ms != [] && ms[0].key != k {
      GetSet(ms[1..], k, v, x);
      assert ([ms[0]] + SetMember(ms[1..], k, v))[1..] == SetMember(ms[1..], k, v);
    } else if ms != [] {
      assert ([Member(k, v)] + ms[1..])[1..] == ms[1..];
    }
  }

  lemma {:induction false} GetDelete(ms: seq<Member>, k: string, x: string)
    requires x != k
    ensures Get(DeleteMember(ms, k), x) == Get(ms, x)
  {
    if ms != [] && ms[0].key != k {
      GetDelete(ms[1..], k, x);
      assert ([ms[0]] + DeleteMember(ms[1..], k))[1..] == DeleteMember(ms[1..], k);
    }
  }

  lemma {:induction false} DeleteAbsent(ms: seq<Member>, k: string)
    requires Get(ms, k).None?
    ensures DeleteMember(ms, k) == ms
  {
    if ms != [] {
      assert ms[0].key == k ==> Get(ms, k).Some?;
      DeleteAbsent(ms[1..], k);
    }
  }

  lemma {:induction false} SetTwice(ms: seq<Member>, k: string, v: Value, w: Value)
    ensures SetMember(SetMember(ms, k, v), k, w) == SetMember(ms, k, w)
  {
    if ms != [] && ms[0].key != k {
      SetTwice(ms[1..], k, v, w);
      assert ([ms[0]] + SetMember(ms[1..], k, v))[1..] == SetMember(ms[1..], k, v);
    } else if ms != [] {
      assert ([Member(k, v)] + ms[1..])[1..] == ms[1..];
    }
  }

  lemma {:induction false} DeleteSet(ms: seq<Member>, k: string, v: Value)
    ensures DeleteMember(SetMember(ms, k, v), k) == DeleteMember(ms, k)
  {
    if ms != [] && ms[0].key != k {
      DeleteSet(ms[1..], k, v);
      assert ([ms[0]] + SetMember(ms[1..], k, v))[1..] == SetMember(ms[1..], k, v);
    } else if ms != [] {
      assert ([Member(k, v)] + ms[1..])[1..] == ms[1..];
    }
  }

  /** Operations on different names commute. */
  lemma {:induction false} DeleteSetOther(ms: seq<Member>, k: string, x: string, v: Value)
    requires k != x
    ensures DeleteMember(SetMember(ms, x, v), k) == SetMember(DeleteMember(ms, k), x, v)
  {
    if ms == [] {
      assert [Member(x, v)][1..] == [];
    } else if ms[0].key == x {
      assert ([Member(x, v)] + ms[1..])[1..] == ms[1..];
      assert ([ms[0]] + DeleteMember(ms[1..], k))[1..] == DeleteMember(ms[1..], k);
    } else if ms[0].key == k {
      assert ([ms[0]] + SetMember(ms[1..], x, v))[1..] == SetMember(ms[1..], x, v);
    } else {
      DeleteSetOther(ms[1..], k, x, v);
      assert ([ms[0]] + SetMember(ms[1..], x, v))[1..] == SetMember(ms[1..], x, v);
      assert ([ms[0]] + DeleteMember(ms[1..], k))[1..] == DeleteMember(ms[1..], k);
    }
  }

  /** Setting a member to the value it has changes nothing. */
  lemma {:induction false} SetSame(ms: seq<Member>, k: string)
    requires Get(ms, k).Some?
    ensures SetMember(ms, k, Get(ms, k).value) == ms
  {
    if ms != [] && ms[0].key != k {
      SetSame(ms[1..], k);
      assert [ms[0]] + ms[1..] == ms;
    } else if ms != [] {
      assert [ms[0]] + ms[1..] == ms;
    }
  }

  lemma {:induction false} DeleteKeeps(ms: seq<Member>, k: string)
    requires DistinctKeys(ms)
    ensures DistinctKeys(DeleteMember(ms, k)) && Get(DeleteMember(ms, k), k).None?
    ensures forall m | m in DeleteMember(ms, k) :: m in ms
  {
    if ms != [] {
      HasKeyCons(ms[0], ms[1..]);
      assert [ms[0]] + ms[1..] == ms;
      if ms[0].key == k {
        assert !HasKey(ms[1..], k);
      } else {
        DeleteKeeps(ms[1..], k);
        var rest := DeleteMember(ms[1..], k);
        HasKeyCons(ms[0], rest);
        forall i | 0 <= i < |rest|
          ensures rest[i].key != ms[0].key
        {
          assert rest[i] in ms[1..];
          var j :| 0 <= j < |ms[1..]| && ms[1..][j] == rest[i];
          assert ms[1..][j] == ms[j + 1];
        }
      }
    }
  }

  /** Whole values stay well formed. */
  lemma DeleteKeepsValue(ms: seq<Member>, k: string)
    requires Unambiguous(Object(ms))
    ensures Unambiguous(Object(DeleteMember(ms, k)))
    ensures Finite(Object(ms)) ==> Finite(Object(DeleteMember(ms, k)))
  {
    DeleteKeeps(ms, k);
    var r := DeleteMember(ms, k);
    forall i | 0 <= i < |r|
      ensures Unambiguous(r[i].value) && (Finite(Object(ms)) ==> Finite(r[i].value))
    {
      assert r[i] in ms;
      var j :| 0 <= j < |ms| && ms[j] == r[i];
    }
  }

  lemma {:induction false} SetElements(ms: seq<Member>, k: string, v: Value)
    ensures forall m | m in SetMember(ms, k, v) :: m == Member(k, v) || m in ms
  {
    if ms != [] && ms[0].key != k { SetElements(ms[1..], k, v); }
  }

  lemma SetKeepsValue(ms: seq<Member>, k: string, v: Value)
    requires Unambiguous(Object(ms)) && Unambiguous(v)
    ensures Unambiguous(Object(SetMember(ms, k, v)))
    ensures Finite(Object(ms)) && Finite(v) ==> Finite(Object(SetMember(ms, k, v)))
  {
    SetElements(ms, k, v);
    var r := SetMember(ms, k, v);
    forall i | 0 <= i < |r|
      ensures Unambiguous(r[i].value) && (Finite(Object(ms)) && Finite(v) ==> Finite(r[i].value))
    {
      assert r[i] == Member(k, v) || r[i] in ms;
      if r[i] in ms { var j :| 0 <= j < |ms| && ms[j] == r[i]; }
    }
  }

  lemma GetKeepsValue(ms: seq<Member>, k: string)
    requires Unambiguous(Object(ms)) && Get(ms, k).Some?
    ensures Unambiguous(Get(ms, k).value) && (Finite(Object(ms)) ==> Finite(Get(ms, k).value))
  {
    var i :| 0 <= i < |ms| && ms[i] == Member(k, Get(ms, k).value);
  }
}
