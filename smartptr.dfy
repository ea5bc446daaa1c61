/** The intrusive reference count `RefCount` and the smart pointers that hold references
    to it.  A count is a plain field (the atomic increment and decrement of the Windows
    build are plain steps here); the `delete this` that ends an object is the ghost flag
    `deleted`, and every operation on an object requires that it has not happened. */
module SmartPointers {
  /** 2^64: the range of the `ulong` that `GetRefCount` returns. */
  const ULongLimit: int := 0x1_0000_0000_0000_0000

  class RefCount {
    /** `mRefCount`. */
    var refCount: int
    /** Whether `Release` has deleted the object. */
    ghost var deleted: bool

    /** A new object holds no references. */
    constructor ()
      ensures refCount == 0 && !deleted
    {
      refCount := 0;
      deleted := false;
    }

    /** The copy constructor copies no count: the copy holds no references either. */
    constructor Copy(other: RefCount)
      ensures refCount == 0 && !deleted
    {
      refCount := 0;
      deleted := false;
    }

    /** Assignment copies no count: the target keeps its own, and is returned. */
    method Assign(other: RefCount) returns (r: RefCount)
      requires !deleted
      modifies this
      ensures r == this && refCount == old(refCount) && deleted == old(deleted)
    {
      r := this;
    }

    /** One more reference; the object itself is returned. */
    method CreateRef() returns (r: RefCount)
      requires !deleted
      modifies this
      ensures r == this && refCount == old(refCount) + 1 && !deleted
    {
      refCount := refCount + 1;
      r := this;
    }

    /** One reference fewer; the object is deleted exactly when no reference is left,
        or the count has gone below zero. */
    method Release()
      requires !deleted
      modifies this
      ensures refCount == old(refCount) - 1
      ensures deleted <==> refCount <= 0
    {
      refCount := refCount - 1;
      if refCount <= 0 {
        deleted := true;
      }
    }

    /** The count as an unsigned 64-bit value: a count below zero wraps around. */
    function GetRefCount(): (r: int)
      reads this
      ensures 0 <= r < ULongLimit
      ensures 0 <= refCount < ULongLimit ==> r == refCount
      ensures -ULongLimit <= refCount < 0 ==> r == refCount + ULongLimit
    {
      refCount % ULongLimit
    }
  }

  /** Taking a reference and giving it back leaves the count as it was, and the object
      survives exactly when someone else held it already. */
  method AcquireRelease(obj: RefCount)
    requires !obj.deleted
    modifies obj
    ensures obj.refCount == old(obj.refCount)
    ensures obj.deleted <==> old(obj.refCount) <= 0
  {
    var r := obj.CreateRef();
    r.Release();
  }

  // ---------------------------------------------------------------------------------
  // Pointer comparison.  A raw pointer's address is the address the platform gave the
  // object (the parameter `addr`), and 0 for null.

  /** The address of a possibly null pointer. */
  function Address(r: RefCount?, addr: RefCount -> nat): (a: int)
    ensures r == null <==> a == 0
  {
    if r == null then 0 else addr(r) + 1
  }

  /** Two distinct objects lie at distinct addresses. */
  predicate Apart(r: RefCount?, s: RefCount?, addr: RefCount -> nat)
  {
    r != null && s != null && r != s ==> addr(r) != addr(s)
  }

  /** For objects apart, equal addresses mean the same pointer. */
  lemma AddressUnique(r: RefCount?, s: RefCount?, addr: RefCount -> nat)
    requires Apart(r, s, addr)
    ensures Address(r, addr) == Address(s, addr) <==> r == s
  {
    if r != null && s != null && Address(r, addr) == Address(s, addr) {
      assert addr(r) == addr(s);
    }
  }

  /** `ConstSmartPtr`: holds one reference to the object it points at, if any.  `SmartPtr`
      only adds non-const access to the same pointer, and its constructors and
      assignments forward to these. */
  class ConstSmartPtr {
    /** `p`. */
    var p: RefCount?

    /** The default constructor: a null pointer. */
    constructor Null()
      ensures p == null
    {
      p := null;
    }

    /** From a raw pointer: a reference is taken on a non-null object and none on null. */
    constructor (obj: RefCount?)
      requires obj != null ==> !obj.deleted
      modifies obj
      ensures p == obj
      ensures obj != null ==> obj.refCount == old(obj.refCount) + 1 && !obj.deleted
    {
      if obj != null {
        var r := obj.CreateRef();
        p := r;
      } else {
        p := null;
      }
    }

    /** The copy constructor: another reference to what `other` points at. */
    constructor Copy(other: ConstSmartPtr)
      requires other.p != null ==> !other.p.deleted
      modifies other.p
      ensures p == old(other.p)
      ensures p != null ==> p.refCount == old(other.p.refCount) + 1 && !p.deleted
    {
      var q := other.p;
      if q != null {
        var r := q.CreateRef();
        p := r;
      } else {
        p := null;
      }
    }

    /** The destructor: the reference held, if any, is released once. */
    method Dispose()
      requires p != null ==> !p.deleted
      modifies p
      ensures p == old(p)
      ensures p != null ==> p.refCount == old(p.refCount) - 1 && (p.deleted <==> p.refCount <= 0)
    {
      if p != null {
        p.Release();
      }
    }

    /** Assignment from a raw pointer.  Assigning the pointer already held changes no
        count; otherwise the old object is released once and the new one, if any, gains
        a reference.  The argument is returned. */
    method Assign(ptr: RefCount?) returns (r: RefCount?)
      requires p != null ==> !p.deleted
      requires ptr != null ==> !ptr.deleted
      modifies this, p, ptr
      ensures r == ptr && p == ptr
      ensures old(p) == ptr && ptr != null ==> ptr.refCount == old(ptr.refCount) && ptr.deleted == old(ptr.deleted)
      ensures old(p) != ptr && old(p) != null ==>
        old(p).refCount == old(p.refCount) - 1 && (old(p).deleted <==> old(p).refCount <= 0)
      ensures old(p) != ptr && ptr != null ==> ptr.refCount == old(ptr.refCount) + 1 && !ptr.deleted
    {
      if p != ptr {
        if p != null {
          p.Release();
        }
        if ptr != null {
          var q := ptr.CreateRef();
          p := q;
        } else {
          p := null;
        }
      }
      r := ptr;
    }

    /** Assignment from another smart pointer: assignment from what it points at. */
    method AssignFrom(other: ConstSmartPtr)
      requires p != null ==> !p.deleted
      requires other.p != null ==> !other.p.deleted
      modifies this, p, other.p
      ensures p == old(other.p)
      ensures old(p) == p && p != null ==> p.refCount == old(other.p.refCount) && p.deleted == old(other.p.deleted)
      ensures old(p) != p && old(p) != null ==>
        old(p).refCount == old(p.refCount) - 1 && (old(p).deleted <==> old(p).refCount <= 0)
      ensures old(p) != p && p != null ==> p.refCount == old(other.p.refCount) + 1 && !p.deleted
    {
      var _ := Assign(other.p);
    }

    /** `get`, the arrow and the conversion to a raw pointer. */
    function Get(): RefCount?
      reads this
    {
      p
    }

    /** `==`: the same address. */
    predicate Eq(ptr: RefCount?, addr: RefCount -> nat)
      reads this
    {
      Address(p, addr) == Address(ptr, addr)
    }

    /** `!=`: a different address. */
    predicate Ne(ptr: RefCount?, addr: RefCount -> nat)
      reads this
    {
      Address(p, addr) != Address(ptr, addr)
    }

    /** `<`: a lower address. */
    predicate Less(ptr: RefCount?, addr: RefCount -> nat)
      reads this
    {
      Address(p, addr) < Address(ptr, addr)
    }

    /** `==` holds exactly when the pointer is `ptr`, and `!=` is its negation. */
    lemma EqIsIdentity(ptr: RefCount?, addr: RefCount -> nat)
      requires Apart(p, ptr, addr)
      ensures Eq(ptr, addr) <==> p == ptr
      ensures Ne(ptr, addr) <==> !Eq(ptr, addr)
    {
      AddressUnique(p, ptr, addr);
    }

    /** Exactly one of `==`, `<` and the reversed `<` holds: `<` orders the pointers. */
    lemma LessTrichotomy(ptr: RefCount?, addr: RefCount -> nat)
      requires Apart(p, ptr, addr)
      ensures (p == ptr) != (Less(ptr, addr) || Address(ptr, addr) < Address(p, addr))
      ensures !(Less(ptr, addr) && Address(ptr, addr) < Address(p, addr))
    {
      AddressUnique(p, ptr, addr);
    }
  }

  /** `Comp`: smart pointers ordered by the objects they point at. */
  predicate Comp(a: ConstSmartPtr, b: ConstSmartPtr, addr: RefCount -> nat)
    reads a, b
  {
    a.Less(b.Get(), addr)
  }

  /** `Comp` is a strict weak order, as an ordered container needs: irreflexive and
      transitive, and two pointers whose objects lie apart are equivalent under it exactly when they point at the
      same object. */
  lemma CompStrictOrder(a: ConstSmartPtr, b: ConstSmartPtr, c: ConstSmartPtr, addr: RefCount -> nat)
    requires Apart(a.p, b.p, addr)
    ensures !Comp(a, a, addr)
    ensures Comp(a, b, addr) && Comp(b, c, addr) ==> Comp(a, c, addr)
    ensures !Comp(a, b, addr) && !Comp(b, a, addr) <==> a.Get() == b.Get()
  {
    AddressUnique(a.p, b.p, addr);
  }
}
