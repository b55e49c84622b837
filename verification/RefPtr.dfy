// scoped_refptr over RefCountedObject. The methods under "Primitive" are single atomic actions and
// keep Valid wherever they come, also in the middle of an operation of another thread. An operation
// is a sequence of them; what it says about its handles at its end is proved for an uninterrupted one.
module RefPtr {
  import opened Sequences

  type Handle = nat
  type Obj = nat

  datatype Pointer = Null | To(o: Obj)

  // The handles that own a reference to `o`.
  ghost function Holders(ptr: map<Handle, Pointer>, loose: set<Handle>, o: Obj): set<Handle> {
    set h | h in ptr && h !in loose && ptr[h] == To(o)
  }

  ghost predicate Balanced(ptr: map<Handle, Pointer>, loose: set<Handle>, raw: multiset<Obj>, count: map<Obj, int>) {
    && loose <= ptr.Keys
    && (forall h :: h in ptr && h !in loose && ptr[h].To? ==> ptr[h].o in count)
    && (forall o :: o in raw ==> o in count)
    && (forall o :: o in count ==> count[o] == |Holders(ptr, loose, o)| + raw[o])
  }

  // An object exists while it is referenced, and is deleted once at most.
  ghost predicate Lives(count: map<Obj, int>, nextObj: Obj, unused: set<Obj>, destroyed: seq<Obj>) {
    && (forall o :: o in count ==> o < nextObj && (count[o] > 0 || o in unused))
    && (forall o :: o in destroyed ==> o < nextObj && o !in count)
    && Distinct(destroyed)
  }

  class Heap {
    var ptr: map<Handle, Pointer>    // ptr_ of every scoped_refptr that exists
    var count: map<Obj, int>         // ref_count_ of every object that exists
    var nextObj: Obj
    ghost var raw: multiset<Obj>     // references owned outside any handle, as after release()
    ghost var loose: set<Handle>     // handles in the middle of an operation, owning nothing
    ghost var unused: set<Obj>       // objects that have never been referenced
    ghost var destroyed: seq<Obj>    // in the order of deletion

    ghost predicate Valid()
      reads this
    {
      Balanced(ptr, loose, raw, count) && Lives(count, nextObj, unused, destroyed)
    }

    constructor ()
      ensures Valid() && ptr == map[] && count == map[] && raw == multiset{} && loose == {} && destroyed == []
    {
      ptr, count, nextObj, raw, loose, unused, destroyed := map[], map[], 0, multiset{}, {}, {}, [];
    }

    // ---- Primitive.

    // new RefCountedObject: the count starts at 0.
    method New() returns (o: Obj)
      requires Valid()
      modifies this
      ensures Valid() && o !in old(count) && o !in destroyed
      ensures ptr == old(ptr) && raw == old(raw) && loose == old(loose) && destroyed == old(destroyed)
      ensures count == old(count)[o := 0] && unused == old(unused) + {o}
    {
      o := nextObj;
      nextObj := nextObj + 1;
      count := count[o := 0];
      unused := unused + {o};
      NoHolders(ptr, loose, o);
    }

    // AddRef: the caller owns the new reference.
    method AddRef(o: Obj)
      requires Valid() && o in count
      modifies `count, `raw, `unused
      ensures Valid() && raw == old(raw) + multiset{o} && count == old(count)[o := old(count)[o] + 1]
      ensures unused == old(unused) - {o}
    {
      hide Balanced;
      BalancedAddRef(ptr, loose, raw, count, o);
      count := count[o := count[o] + 1];
      raw := raw + multiset{o};
      unused := unused - {o};
    }

    // Release: gives up a reference the caller owns; the last one deletes the object.
    method Release(o: Obj)
      requires Valid() && o in raw
      modifies `count, `raw, `destroyed
      ensures Valid() && raw == old(raw) - multiset{o}
      ensures if old(count)[o] == 1 then count == old(count) - {o} && destroyed == old(destroyed) + [o]
              else count == old(count)[o := old(count)[o] - 1] && destroyed == old(destroyed)
    {
      hide Balanced;
      BalancedRelease(ptr, loose, raw, count, o);
      raw := raw - multiset{o};
      count := count[o := count[o] - 1];
      if count[o] == 0 {
        count := count - {o};
        destroyed := destroyed + [o];
        assert count == old(count) - {o};
      }
    }

    // A handle about to be overwritten: its reference now belongs to the operation.
    ghost method Loosen(h: Handle)
      requires Valid() && h in ptr && h !in loose
      modifies `raw, `loose
      ensures Valid() && loose == old(loose) + {h}
      ensures raw == old(raw) + One(ptr[h])
    {
      hide Balanced, Lives;
      BalancedLoosen(ptr, loose, raw, count, h);
      raw := raw + One(ptr[h]);
      loose := loose + {h};
    }

    // ptr_ = p on a handle that owns nothing: a reference of the operation moves into it.
    method Store(h: Handle, p: Pointer)
      requires Valid() && (h in ptr ==> h in loose) && (p.To? ==> p.o in raw)
      modifies `ptr, `raw, `loose
      ensures Valid() && ptr == old(ptr)[h := p] && loose == old(loose) - {h}
      ensures raw == old(raw) - One(p)
    {
      hide Balanced, Lives;
      BalancedStore(ptr, loose, raw, count, h, p);
      ptr := ptr[h := p];
      loose := loose - {h};
      raw := raw - One(p);
    }

    // The storage of a handle that owns nothing goes away.
    method Drop(h: Handle)
      requires Valid() && h in ptr && h in loose
      modifies `ptr, `loose
      ensures Valid() && ptr == old(ptr) - {h} && loose == old(loose) - {h}
    {
      hide Balanced, Lives;
      BalancedDrop(ptr, loose, raw, count, h);
      ptr := ptr - {h};
      loose := loose - {h};
    }

    // ---- Operations of scoped_refptr.

    method AddRefIfAny(p: Pointer)
      requires Valid() && (p.To? ==> p.o in count)
      modifies `count, `raw, `unused
      ensures Valid() && raw == old(raw) + One(p) && (p.To? ==> p.o in count)
    {
      hide Balanced, Lives;
      if p.To? {
        AddRef(p.o);
      }
    }

    method ReleaseIfAny(p: Pointer)
      requires Valid() && (p.To? ==> p.o in raw)
      modifies `count, `raw, `destroyed
      ensures Valid() && raw == old(raw) - One(p) && DropsOnly(p)
    {
      hide Balanced, Lives;
      if p.To? {
        Release(p.o);
      }
    }

    // scoped_refptr(T*) and the copy constructors.
    method Construct(h: Handle, p: Pointer)
      requires Valid() && h !in ptr && (p.To? ==> p.o in count)
      modifies `ptr, `raw, `loose, `count, `unused
      ensures Valid() && Settled() && ptr == old(ptr)[h := p]
    {
      hide Balanced, Lives;
      LooseExist(h);
      Cancel(raw, p, Null);
      AddRefIfAny(p);
      Store(h, p);
    }

    // The move constructors.
    method MoveConstruct(h: Handle, r: Handle)
      requires Valid() && h !in ptr && r in ptr && r !in loose
      modifies `ptr, `raw, `loose
      ensures Valid() && Settled() && ptr == old(ptr)[r := Null][h := old(ptr)[r]]
    {
      hide Balanced, Lives;
      LooseExist(h);
      var p := ReleasePtr(r);
      Store(h, p);
    }

    // release(): the reference is now the caller's.
    method ReleasePtr(h: Handle) returns (p: Pointer)
      requires Valid() && h in ptr && h !in loose
      modifies `ptr, `raw, `loose
      ensures Valid() && p == old(ptr)[h] && ptr == old(ptr)[h := Null]
      ensures raw == old(raw) + One(p) && loose == old(loose)
    {
      hide Balanced, Lives;
      p := ptr[h];
      Loosen(h);
      Store(h, Null);
    }

    method Destruct(h: Handle)
      requires Valid() && h in ptr && h !in loose
      modifies `ptr, `raw, `loose, `count, `destroyed
      ensures Valid() && Settled() && ptr == old(ptr) - {h}
      ensures DropsOnly(old(ptr)[h])
    {
      hide Balanced, Lives;
      Cancel(raw, ptr[h], Null);
      Loosen(h);
      ReleaseIfAny(ptr[h]);
      Drop(h);
    }

    // operator=(T*), and through it the copy assignments: add first, release next, store last.
    method Assign(h: Handle, p: Pointer)
      requires Valid() && h in ptr && h !in loose && (p.To? ==> p.o in count)
      modifies `ptr, `raw, `loose, `count, `unused, `destroyed
      ensures Valid() && Settled() && ptr == old(ptr)[h := p]
      ensures DropsOnly(old(ptr)[h])
    {
      hide Balanced, Lives, One;
      var q := ptr[h];
      Cancel(raw, p, q);
      AddRefIfAny(p);
      Loosen(h);
      ReleaseIfAny(q);
      Store(h, p);
    }

    // swap: the references change places, whatever the two handles are.
    method Swap(a: Handle, b: Handle)
      requires Valid() && a in ptr && b in ptr && a !in loose && b !in loose
      modifies `ptr, `raw, `loose
      ensures Valid() && Settled() && ptr == old(ptr)[a := old(ptr)[b]][b := old(ptr)[a]]
    {
      hide Balanced, Lives;
      if a == b {
        Cancel(raw, ptr[a], Null);
        Loosen(a);
        Store(a, ptr[b]);
      } else {
        Exchange(a, b);
      }
    }

    method Exchange(a: Handle, b: Handle)
      requires Valid() && a in ptr && b in ptr && a !in loose && b !in loose && a != b
      modifies `ptr, `raw, `loose
      ensures Valid() && Settled() && ptr == old(ptr)[a := old(ptr)[b]][b := old(ptr)[a]]
    {
      hide Balanced, Lives;
      var p, q := ptr[a], ptr[b];
      Cancel(raw, p, q);
      Loosen(a);
      Loosen(b);
      Store(a, q);
      Store(b, p);
    }

    // Move assignment: a temporary takes r's reference, swaps with h, and dies with h's old one.
    method MoveAssign(h: Handle, r: Handle, temp: Handle)
      requires Valid() && h in ptr && r in ptr && h !in loose && r !in loose && temp !in ptr
      modifies `ptr, `raw, `loose, `count, `destroyed
      ensures Valid() && Settled() && ptr == old(ptr)[r := Null][h := old(ptr)[r]]
      ensures DropsOnly(old(ptr)[h])
    {
      hide Balanced, Lives;
      LooseExist(temp);
      ThroughTemp(ptr, h, r, temp);
      MoveConstruct(temp, r);
      Swap(temp, h);
      Destruct(temp);
    }

    lemma LooseExist(h: Handle)
      requires Valid() && h !in ptr
      ensures h !in loose
    {
    }

    // No reference is left in the hands of the operation.
    twostate predicate Settled()
      reads `raw, `loose
    {
      raw == old(raw) && loose == old(loose)
    }

    // The operation deletes nothing but the object it let go of.
    twostate predicate DropsOnly(p: Pointer)
      reads `destroyed
    {
      destroyed == old(destroyed) || (p.To? && destroyed == old(destroyed) + [p.o])
    }

    // What Valid says to a user: an object is there as long as anything refers to it, its count is
    // the number of handles and of references taken out, and a deleted one is referred to by nothing.
    lemma CountIsTotal(o: Obj)
      requires Valid()
      ensures o in count ==> count[o] == |Holders(ptr, loose, o)| + raw[o]
      ensures o in count && o !in unused ==> count[o] > 0
      ensures o in destroyed ==> o !in count && Holders(ptr, loose, o) == {} && o !in raw
      ensures Holders(ptr, loose, o) != {} || o in raw ==> o in count
    {
    }
  }

  function One(p: Pointer): multiset<Obj> {
    if p.To? then multiset{p.o} else multiset{}
  }

  lemma Cancel(raw: multiset<Obj>, p: Pointer, q: Pointer)
    ensures raw + One(p) - One(p) == raw
    ensures raw + One(p) + One(q) - One(q) - One(p) == raw
    ensures p.To? ==> p.o in raw + One(p) && p.o in raw + One(p) + One(q) && p.o in raw + One(p) + One(q) - One(q)
    ensures q.To? ==> q.o in raw + One(p) + One(q)
  {
  }

  lemma ThroughTemp(ptr: map<Handle, Pointer>, h: Handle, r: Handle, t: Handle)
    requires h in ptr && r in ptr && t !in ptr
    ensures var moved := ptr[r := Null][t := ptr[r]];
            moved[t := moved[h]][h := moved[t]] - {t} == ptr[r := Null][h := ptr[r]]
  {
  }

  lemma NoHolders(ptr: map<Handle, Pointer>, loose: set<Handle>, o: Obj)
    ensures Holders(ptr, loose, o) == {} <==> forall h :: h in ptr && h !in loose ==> ptr[h] != To(o)
  {
    assert forall h :: h in Holders(ptr, loose, o) <==> h in ptr && h !in loose && ptr[h] == To(o);
  }

  lemma BalancedLoosen(ptr: map<Handle, Pointer>, loose: set<Handle>, raw: multiset<Obj>, count: map<Obj, int>,
                       h: Handle)
    requires Balanced(ptr, loose, raw, count) && h in ptr && h !in loose
    ensures Balanced(ptr, loose + {h}, raw + One(ptr[h]), count)
  {
    forall o | o in count
      ensures count[o] == |Holders(ptr, loose + {h}, o)| + (raw + One(ptr[h]))[o]
    {
      assert Holders(ptr, loose + {h}, o) == Holders(ptr, loose, o) - {h};
    }
  }

  lemma BalancedStore(ptr: map<Handle, Pointer>, loose: set<Handle>, raw: multiset<Obj>, count: map<Obj, int>,
                      h: Handle, p: Pointer)
    requires Balanced(ptr, loose, raw, count) && (h in ptr ==> h in loose) && (p.To? ==> p.o in raw)
    ensures Balanced(ptr[h := p], loose - {h}, raw - One(p), count)
  {
    forall o | o in count
      ensures count[o] == |Holders(ptr[h := p], loose - {h}, o)| + (raw - One(p))[o]
    {
      HoldersStore(ptr, loose, h, p, o);
      assert (raw - One(p))[o] == raw[o] - if p == To(o) then 1 else 0;
    }
  }

  lemma HoldersStore(ptr: map<Handle, Pointer>, loose: set<Handle>, h: Handle, p: Pointer, o: Obj)
    requires h in ptr ==> h in loose
    ensures |Holders(ptr[h := p], loose - {h}, o)| == |Holders(ptr, loose, o)| + if p == To(o) then 1 else 0
  {
    var before, after := Holders(ptr, loose, o), Holders(ptr[h := p], loose - {h}, o);
    assert h !in before;
    if p == To(o) {
      assert after == before + {h};
    } else {
      assert after == before;
    }
  }

  lemma BalancedAddRef(ptr: map<Handle, Pointer>, loose: set<Handle>, raw: multiset<Obj>, count: map<Obj, int>, o: Obj)
    requires Balanced(ptr, loose, raw, count) && o in count
    ensures Balanced(ptr, loose, raw + multiset{o}, count[o := count[o] + 1]) && count[o] >= 0
  {
  }

  lemma BalancedRelease(ptr: map<Handle, Pointer>, loose: set<Handle>, raw: multiset<Obj>, count: map<Obj, int>, o: Obj)
    requires Balanced(ptr, loose, raw, count) && o in raw
    ensures o in count && count[o] > 0
    ensures Balanced(ptr, loose, raw - multiset{o}, if count[o] == 1 then count - {o} else count[o := count[o] - 1])
  {
    var raw' := raw - multiset{o};
    assert raw'[o] == raw[o] - 1 && forall x :: x != o ==> raw'[x] == raw[x];
    if count[o] == 1 {
      NoHolders(ptr, loose, o);
    }
  }

  lemma BalancedDrop(ptr: map<Handle, Pointer>, loose: set<Handle>, raw: multiset<Obj>, count: map<Obj, int>, h: Handle)
    requires Balanced(ptr, loose, raw, count) && h in ptr && h in loose
    ensures Balanced(ptr - {h}, loose - {h}, raw, count)
  {
    forall o | o in count
      ensures Holders(ptr - {h}, loose - {h}, o) == Holders(ptr, loose, o)
    {
    }
  }
}
