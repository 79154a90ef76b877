/** Who owns the blocks of `StringsBulk` objects: construction, copying, moving, assignment and
    destruction over a heap with `malloc` and `free`. */
module StringsOwnership {
  import opened Wrappers
  import opened StringsImage

  const NULL: nat := 0

  class Heap {
    var live: map<nat, Bytes>
    // who owns each live block
    ghost var owner: map<nat, StringsBulk>

    /** `at` is the address the allocator picks, if it succeeds. */
    method Malloc(content: Bytes, at: Option<nat>) returns (p: nat)
      requires at.Some? ==> at.value != NULL && at.value !in live
      modifies this`live
      ensures match at
              case None => p == NULL && live == old(live)
              case Some(a) => p == a && live == old(live)[a := content]
    {
      match at
      case None => return NULL;
      case Some(a) => live := live[a := content]; return a;
    }

    /** Only live blocks may be freed. */
    method Free(p: nat)
      requires p in live
      modifies this
      ensures live == old(live) - {p} && owner == old(owner) - {p}
    {
      live, owner := live - {p}, owner - {p};
    }
  }

  /** Every live block but the `loose` ones has a non-empty owner among the bulks, and every
      non-empty bulk is the owner of the live block it points to. Empty bulks point nowhere. */
  ghost predicate OwnedBut(heap: Heap, bulks: set<StringsBulk>, loose: set<nat>)
    reads heap, bulks
  {
    && heap.owner.Keys == heap.live.Keys - loose
    && (forall p :: p in heap.owner ==> heap.owner[p] in bulks && heap.owner[p].Owns(p))
    && (forall b :: b in bulks ==> b.Holds(heap.owner))
  }

  ghost predicate Owned(heap: Heap, bulks: set<StringsBulk>)
    reads heap, bulks
  {
    OwnedBut(heap, bulks, {})
  }

  /** Ownership is unique: a live block has exactly one non-empty bulk that points to it. */
  lemma OneOwner(heap: Heap, bulks: set<StringsBulk>, p: nat)
    requires Owned(heap, bulks) && p in heap.live
    ensures exists b :: b in bulks && b.Owns(p) && forall c :: c in bulks && c.Owns(p) ==> c == b
  {
    var b := heap.owner[p];
    assert b in bulks && b.Owns(p) && forall c :: c in bulks && c.Owns(p) ==> c == b;
  }

  /** Different bulks hold different blocks, so that releasing one leaves the others' contents. */
  lemma BlocksApart(heap: Heap, bulks: set<StringsBulk>, b: StringsBulk, c: StringsBulk)
    requires Owned(heap, bulks) && b in bulks && c in bulks && b != c
    ensures b.Blocks() !! c.Blocks()
    ensures c.Content(heap.live - b.Blocks()) == c.Content(heap.live)
  {
  }

  class StringsBulk {
    var count: nat
    var ctrl: nat

    predicate Owns(p: nat)
      reads this
    {
      count > 0 && ctrl == p
    }

    ghost predicate Holds(owner: map<nat, StringsBulk>)
      reads this
    {
      if count == 0 then ctrl == NULL else ctrl != NULL && ctrl in owner && owner[ctrl] == this
    }

    /** The block the bulk shows to its users; nothing when empty. */
    ghost function Content(live: map<nat, Bytes>): Option<Bytes>
      reads this
    {
      if count > 0 && ctrl in live then Some(live[ctrl]) else None
    }

    /** The block the bulk holds, if any. */
    ghost function Blocks(): set<nat>
      reads this
    {
      if count > 0 then {ctrl} else {}
    }

    constructor Empty(heap: Heap, ghost bulks: set<StringsBulk>, ghost loose: set<nat>)
      requires OwnedBut(heap, bulks, loose)
      ensures count == 0 && OwnedBut(heap, bulks + {this}, loose)
    {
      count, ctrl := 0, NULL;
    }

    /** An empty bulk becomes the owner of a loose block. */
    method Adopt(heap: Heap, ghost bulks: set<StringsBulk>, n: nat, p: nat)
      requires this in bulks && count == 0 && n > 0 && p != NULL && p in heap.live && OwnedBut(heap, bulks, {p})
      modifies this, heap`owner
      ensures Owned(heap, bulks) && count == n && ctrl == p
    {
      heap.owner := heap.owner[p := this];
      count, ctrl := n, p;
    }

    /** `if( !empty() ) free(m_Ctrl)`, leaving an empty bulk. */
    method Release(heap: Heap, ghost bulks: set<StringsBulk>, ghost loose: set<nat>)
      requires OwnedBut(heap, bulks, loose) && this in bulks
      modifies heap, this
      ensures OwnedBut(heap, bulks, loose) && count == 0
      ensures heap.live == old(heap.live) - old(Blocks())
    {
      if count != 0 {
        heap.Free(ctrl);
        count, ctrl := 0, NULL;
      }
    }

    /** An empty bulk takes the block of another one, which becomes empty. */
    method TakeOver(heap: Heap, ghost bulks: set<StringsBulk>, rhs: StringsBulk)
      requires Owned(heap, bulks) && this in bulks && rhs in bulks && rhs != this && count == 0
      modifies heap`owner, this, rhs
      ensures Owned(heap, bulks) && rhs.count == 0 && count == old(rhs.count)
      ensures Content(heap.live) == old(rhs.Content(heap.live))
    {
      if rhs.count > 0 { heap.owner := heap.owner[rhs.ctrl := this]; }
      count, ctrl := rhs.count, rhs.ctrl;
      rhs.count, rhs.ctrl := 0, NULL;
    }

    /** The bulk a builder returns for the block it has filled; `null` when allocation throws. */
    static method Build(heap: Heap, ghost bulks: set<StringsBulk>, strings: seq<Bytes>, at: Option<nat>)
      returns (b: StringsBulk?)
      requires Owned(heap, bulks) && (at.Some? ==> at.value != NULL && at.value !in heap.live)
      modifies heap
      ensures b == null <==> strings != [] && at == None
      ensures if b == null then Owned(heap, bulks) else fresh(b) && Owned(heap, bulks + {b}) && b.count == |strings|
      ensures heap.live == if at == None || strings == [] then old(heap.live) else old(heap.live)[at.value := Image(strings)]
      ensures b != null && strings != [] ==> b.Content(heap.live) == Some(Image(strings))
    {
      if strings == [] {
        b := new StringsBulk.Empty(heap, bulks, {});
        return b;
      }
      b := Clone(heap, bulks, Image(strings), |strings|, at);
    }

    /** A new bulk for a block with the given content; `null` when allocation fails. */
    static method Clone(heap: Heap, ghost bulks: set<StringsBulk>, content: Bytes, n: nat, at: Option<nat>)
      returns (b: StringsBulk?)
      requires Owned(heap, bulks) && n > 0 && (at.Some? ==> at.value != NULL && at.value !in heap.live)
      modifies heap
      ensures b == null <==> at == None
      ensures if b == null then Owned(heap, bulks)
              else fresh(b) && Owned(heap, bulks + {b}) && b.count == n && b.ctrl == at.value
      ensures heap.live == if at == None then old(heap.live) else old(heap.live)[at.value := content]
    {
      var p := heap.Malloc(content, at);
      if p == NULL { return null; }
      b := new StringsBulk.Empty(heap, bulks, {p});
      b.Adopt(heap, bulks + {b}, n, p);
    }

    /** The copy constructor; `null` when it throws `bad_alloc`. */
    static method Copy(heap: Heap, ghost bulks: set<StringsBulk>, rhs: StringsBulk, at: Option<nat>)
      returns (b: StringsBulk?)
      requires Owned(heap, bulks) && rhs in bulks && (at.Some? ==> at.value != NULL && at.value !in heap.live)
      modifies heap
      ensures b == null <==> rhs.count > 0 && at == None
      ensures if b == null then Owned(heap, bulks) else fresh(b) && Owned(heap, bulks + {b}) && b.count == rhs.count
      ensures heap.live == if at == None || rhs.count == 0 then old(heap.live)
                           else old(heap.live)[at.value := old(heap.live)[rhs.ctrl]]
      ensures b != null ==> b.Content(heap.live) == old(rhs.Content(heap.live))
    {
      if rhs.count == 0 {
        b := new StringsBulk.Empty(heap, bulks, {});
        return b;
      }
      b := Clone(heap, bulks, heap.live[rhs.ctrl], rhs.count, at);
    }

    /** The move constructor. */
    constructor Move(heap: Heap, ghost bulks: set<StringsBulk>, rhs: StringsBulk)
      requires Owned(heap, bulks) && rhs in bulks
      modifies rhs, heap`owner
      ensures Owned(heap, bulks + {this}) && rhs.count == 0 && count == old(rhs.count)
      ensures Content(heap.live) == old(rhs.Content(heap.live))
    {
      count, ctrl := 0, NULL;
      new;
      TakeOver(heap, bulks + {this}, rhs);
    }

    /** Copy assignment; `false` when it throws `bad_alloc`, in which case nothing has changed. The
        new block is allocated before the old one is freed. */
    method AssignCopy(heap: Heap, ghost bulks: set<StringsBulk>, rhs: StringsBulk, at: Option<nat>) returns (ok: bool)
      requires Owned(heap, bulks) && this in bulks && rhs in bulks
      requires at.Some? ==> at.value != NULL && at.value !in heap.live
      modifies heap, this
      ensures Owned(heap, bulks)
      ensures !ok <==> rhs != this && old(rhs.count) > 0 && at == None
      ensures !ok ==> count == old(count) && ctrl == old(ctrl)
      ensures ok ==> Content(heap.live) == old(rhs.Content(heap.live)) && count == old(rhs.count)
      ensures heap.live == if !ok || rhs == this then old(heap.live)
                           else if old(rhs.count) == 0 then old(heap.live) - old(Blocks())
                           else old(heap.live)[at.value := old(heap.live)[rhs.ctrl]] - old(Blocks())
    {
      if rhs == this { return true; }
      if rhs.count == 0 {
        Release(heap, bulks, {});
      } else {
        var p := heap.Malloc(heap.live[rhs.ctrl], at);
        if p == NULL { return false; }
        Release(heap, bulks, {p});
        Adopt(heap, bulks, rhs.count, p);
      }
      return true;
    }

    /** Move assignment; assigning a bulk to itself leaves it alone. */
    method AssignMove(heap: Heap, ghost bulks: set<StringsBulk>, rhs: StringsBulk)
      requires Owned(heap, bulks) && this in bulks && rhs in bulks
      modifies heap, this, rhs
      ensures Owned(heap, bulks)
      ensures Content(heap.live) == old(rhs.Content(heap.live)) && count == old(rhs.count)
      ensures rhs != this ==> rhs.count == 0
      ensures heap.live == if rhs == this then old(heap.live) else old(heap.live) - old(Blocks())
    {
      if rhs == this { return; }
      BlocksApart(heap, bulks, this, rhs);
      Release(heap, bulks, {});
      TakeOver(heap, bulks, rhs);
    }

    method Destroy(heap: Heap, ghost bulks: set<StringsBulk>)
      requires Owned(heap, bulks) && this in bulks
      modifies heap
      ensures Owned(heap, bulks - {this})
      ensures heap.live == old(heap.live) - Blocks()
    {
      if count != 0 { heap.Free(ctrl); }
    }
  }
}
