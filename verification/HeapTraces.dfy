/** Runs of calls by the owners of blocks: an allocator that gives every owner a memory of its own. */
module HeapTraces {
  import opened Machine
  import opened Bytes
  import opened OrderedArrays
  import opened HeapModel
  import opened HeapRuns

  /** What owners call, and what they see of it. */
  datatype Call =
    | Request(size: nat, align: bool)
    | Release(ptr: nat)
    | Put(ptr: nat, offset: nat, data: seq<Byte>)
    | Get(ptr: nat, offset: nat, count: nat)

  /** A request yields a pointer and whatever bytes its block holds then. */
  datatype Reply = Gave(ptr: nat, bytes: seq<Byte>) | Read(bytes: seq<Byte>) | Silent

  /** The heap, and for every pointer that is not released the bytes its owner put there. */
  datatype State = State(heap: Heap, store: map<nat, seq<Byte>>)

  /** A live block with payload `p` has room for `n` bytes. */
  ghost predicate Owned(live: set<Block>, p: nat, n: nat) {
    exists b :: b in live && b.Payload() == p && n + TAGS <= b.size
  }

  ghost predicate Owns(s: State) {
    Sound(s.heap) && forall p :: p in s.store ==> Owned(Live(s.heap.blocks), p, |s.store[p]|)
  }

  /** Calls that no owner makes: of pointers that are not theirs, or outside what was requested. */
  ghost predicate Illegal(s: State, call: Call) {
    match call
    case Request(_, _) => false
    case Release(p) => p != 0 && p !in s.store
    case Put(p, offset, data) => p !in s.store || |s.store[p]| < offset + |data|
    case Get(p, offset, count) => p !in s.store || |s.store[p]| < offset + count
  }

  /** One call and its reply; None when the call is illegal, the heap panics or the reply is another. */
  ghost function Step(s: State, call: Call, reply: Reply): Option<State>
    requires Owns(s)
  {
    if Illegal(s, call) then None
    else
      match call
      case Request(size, align) =>
        (match Alloc(s.heap, size, align)
         case None => None
         case Some((r, p)) =>
           if reply.Gave? && reply.ptr == p && |reply.bytes| == size
           then Some(State(r, s.store[p := reply.bytes]))
           else None)
      case Release(p) =>
        if reply != Silent then None
        else if p == 0 then Some(s)
        else
          OwnedAt(s.heap, p, |s.store[p]|);
          Some(State(Freed(s.heap, LiveAt(s.heap.blocks, p)), s.store - {p}))
      case Put(p, offset, data) =>
        if reply != Silent then None else Some(s.(store := s.store[p := Write(s.store[p], offset, data)]))
      case Get(p, offset, count) =>
        if reply != Read(s.store[p][offset..offset + count]) then None else Some(s)
  }

  /** The block of an owned pointer. */
  lemma OwnedAt(h: Heap, p: nat, n: nat)
    requires Sound(h) && Owned(Live(h.blocks), p, n)
    ensures var k := LiveAt(h.blocks, p);
      && k < |h.blocks| && !h.blocks[k].hole && n + TAGS <= h.blocks[k].size && h.blocks[k] in Live(h.blocks)
      && h.start <= h.blocks[k].addr && h.blocks[k].End() <= h.end && h.start <= Merged(h.blocks, k).addr
  {
    hide Tiles, BagOfHoles, Sorted, Coalesced, Merged;
    var b :| b in Live(h.blocks) && b.Payload() == p && n + TAGS <= b.size;
    var k := LiveAt(h.blocks, p);
    assert h.blocks[k] in h.blocks;
    SameAddr(h, b, h.blocks[k]);
    TilesBounds(h.blocks, h.start, h.end);
    FreedSound(h, k);
  }

  /** A pointer that `alloc` returns is nobody's. */
  lemma NewPointer(s: State, size: nat, align: bool)
    requires Owns(s) && Alloc(s.heap, size, align).Some?
    ensures var (r, p) := Alloc(s.heap, size, align).value;
      && Sound(r) && p !in s.store && Owned(Live(r.blocks), p, size) && Live(s.heap.blocks) <= Live(r.blocks)
  {
    hide Tiles, BagOfHoles, Sorted, Coalesced, Alloc;
    AllocSound(s.heap, size, align);
    var (r, p) := Alloc(s.heap, size, align).value;
    var b :| b in r.blocks && b.Payload() == p && size + TAGS <= b.size && !b.hole && b !in s.heap.blocks
      && Live(r.blocks) == Live(s.heap.blocks) + {b};
    if p in s.store {
      var c :| c in Live(s.heap.blocks) && c.Payload() == p;
      assert c in Live(r.blocks);
      SameAddr(r, b, c);
    }
  }

  lemma StepOwns(s: State, call: Call, reply: Reply)
    requires Owns(s) && Step(s, call, reply).Some?
    ensures Owns(Step(s, call, reply).value)
  {
    hide Sound, Alloc, Freed, Merged, Live, LiveAt;
    match call
    case Request(size, align) =>
      NewPointer(s, size, align);
    case Release(p) =>
      if p != 0 {
        ReleaseOwns(s, p);
      }
    case Put(_, _, _) =>
    case Get(_, _, _) =>
  }

  lemma ReleaseOwns(s: State, p: nat)
    requires Owns(s) && p in s.store
    ensures var k := LiveAt(s.heap.blocks, p);
      && k < |s.heap.blocks| && s.heap.start <= Merged(s.heap.blocks, k).addr
      && Sound(Freed(s.heap, k)) && Live(Freed(s.heap, k).blocks) == Live(s.heap.blocks) - {s.heap.blocks[k]}
      && forall q :: q in s.store && q != p ==> Owned(Live(Freed(s.heap, k).blocks), q, |s.store[q]|)
  {
    hide Sound, Freed, Merged, Live, LiveAt;
    OwnedAt(s.heap, p, |s.store[p]|);
    var k := LiveAt(s.heap.blocks, p);
    FreedSound(s.heap, k);
    FreedLive(s.heap, k);
    forall q | q in s.store && q != p
      ensures Owned(Live(Freed(s.heap, k).blocks), q, |s.store[q]|)
    {
      var b :| b in Live(s.heap.blocks) && b.Payload() == q && |s.store[q]| + TAGS <= b.size;
      assert b in Live(Freed(s.heap, k).blocks);
    }
  }

  /** The state after a run of calls with these replies. */
  ghost function Run(s: State, calls: seq<Call>, replies: seq<Reply>): (r: Option<State>)
    requires Owns(s) && |calls| == |replies|
    ensures r.Some? ==> Owns(r.value)
    decreases |calls|
  {
    if calls == [] then Some(s)
    else
      var n := |calls| - 1;
      match Run(s, calls[..n], replies[..n])
      case None => None
      case Some(t) =>
        var u := Step(t, calls[n], replies[n]);
        if u.Some? then StepOwns(t, calls[n], replies[n]); u else None
  }

  /** What one call keeps: the place of the heap, the blocks it does not release, and the pointers
      and bytes of everybody else. */
  lemma StepKeeps(s: State, call: Call, reply: Reply)
    requires Owns(s) && Step(s, call, reply).Some?
    ensures var r := Step(s, call, reply).value;
      && r.heap.start == s.heap.start && r.heap.max == s.heap.max
      && (forall b :: b in Live(s.heap.blocks) && call != Release(b.Payload()) ==> b in Live(r.heap.blocks))
      && (forall p :: p in s.store && call != Release(p) ==> p in r.store && |r.store[p]| == |s.store[p]|)
      && (forall p :: p in s.store && call != Release(p) && !(call.Put? && call.ptr == p) ==> r.store[p] == s.store[p])
  {
    hide Sound, Alloc, Freed, Merged, LiveAt, Live;
    match call
    case Request(size, align) =>
      NewPointer(s, size, align);
      AllocSound(s.heap, size, align);
    case Release(p) =>
      if p != 0 {
        ReleaseOwns(s, p);
        FreedFrame(s.heap, LiveAt(s.heap.blocks, p));
      }
    case Put(_, _, _) =>
    case Get(_, _, _) =>
  }

  /** What one call does to the heap and the store, exactly. */
  lemma StepExact(s: State, call: Call, reply: Reply)
    requires Owns(s) && Step(s, call, reply).Some?
    ensures var r := Step(s, call, reply).value;
      match call
      case Request(size, align) =>
        && reply.Gave? && |reply.bytes| == size && (align ==> reply.ptr % 0x1000 == 0)
        && reply.ptr !in s.store && r.store == s.store[reply.ptr := reply.bytes]
        && exists b :: b !in Live(s.heap.blocks) && b.Payload() == reply.ptr
             && Live(r.heap.blocks) == Live(s.heap.blocks) + {b}
      case Release(p) =>
        && (p == 0 ==> r == s)
        && (p != 0 ==>
              && p in s.store && r.store == s.store - {p}
              && exists b :: b in Live(s.heap.blocks) && b.Payload() == p
                   && Live(r.heap.blocks) == Live(s.heap.blocks) - {b})
      case Put(p, offset, data) =>
        && r.heap == s.heap && r.store.Keys == s.store.Keys && p in s.store
        && offset + |data| <= |s.store[p]| == |r.store[p]| && r.store[p][offset..offset + |data|] == data
        && (forall q :: q in s.store && q != p ==> r.store[q] == s.store[q])
        && forall i :: 0 <= i < |s.store[p]| && !(offset <= i < offset + |data|) ==> r.store[p][i] == s.store[p][i]
      case Get(p, offset, count) =>
        && r == s && p in s.store && offset + count <= |s.store[p]|
        && reply == Read(s.store[p][offset..offset + count])
  {
    hide Sound, Alloc, Freed, Merged, LiveAt, Write, Live;
    match call
    case Request(size, align) =>
      NewPointer(s, size, align);
      AllocSound(s.heap, size, align);
      NewLive(s.heap, size, align);
    case Release(p) =>
      if p != 0 {
        OwnedAt(s.heap, p, |s.store[p]|);
        ReleaseOwns(s, p);
      }
    case Put(_, _, _) =>
    case Get(_, _, _) =>
  }

  lemma NewLive(h: Heap, size: nat, align: bool)
    requires Sound(h) && Alloc(h, size, align).Some?
    ensures var (r, p) := Alloc(h, size, align).value;
      exists b :: b !in Live(h.blocks) && b.Payload() == p && Live(r.blocks) == Live(h.blocks) + {b}
  {
    hide Sound, Alloc;
    AllocSound(h, size, align);
    var (r, p) := Alloc(h, size, align).value;
    var b :| b in r.blocks && b.Payload() == p && b !in h.blocks && Live(r.blocks) == Live(h.blocks) + {b};
    assert b !in Live(h.blocks);
  }

  /** Every run keeps the invariant and every block that is not released, and at its end every
      pointer owns a live block with room for what was requested. */
  lemma {:induction false} RunSafe(s: State, calls: seq<Call>, replies: seq<Reply>)
    requires Owns(s) && |calls| == |replies| && Run(s, calls, replies).Some?
    ensures var r := Run(s, calls, replies).value;
      && Sound(r.heap) && r.heap.start == s.heap.start && r.heap.max == s.heap.max
      && (forall b :: b in Live(s.heap.blocks) && Release(b.Payload()) !in calls ==> b in Live(r.heap.blocks))
      && (forall p :: p in r.store ==> Owned(Live(r.heap.blocks), p, |r.store[p]|))
    decreases |calls|
  {
    hide Sound, Step, Owned, Live;
    if calls != [] {
      var n := |calls| - 1;
      RunSafe(s, calls[..n], replies[..n]);
      StepKeeps(Run(s, calls[..n], replies[..n]).value, calls[n], replies[n]);
    }
  }

  /** No call behind the first `i` releases `p`, or stores through it. */
  ghost predicate NotReleased(calls: seq<Call>, i: nat, p: nat) {
    forall j :: i <= j < |calls| ==> calls[j] != Release(p)
  }

  ghost predicate NotStored(calls: seq<Call>, i: nat, p: nat) {
    forall j :: i <= j < |calls| ==> !(calls[j].Put? && calls[j].ptr == p)
  }

  lemma StepGave(s: State, call: Call, reply: Reply)
    requires Owns(s) && Step(s, call, reply).Some? && call.Request? && reply.Gave?
    ensures var r := Step(s, call, reply).value;
      reply.ptr in r.store && r.store[reply.ptr] == reply.bytes && |reply.bytes| == call.size
  {
    hide Owns, Alloc;
  }

  /** A pointer returned during a run and not released since is owned at its end, with the size it
      was requested with; without a store through it its bytes are those of the moment of its return. */
  lemma {:induction false} ReturnedKept(s: State, calls: seq<Call>, replies: seq<Reply>, i: nat)
    requires Owns(s) && |calls| == |replies| && Run(s, calls, replies).Some?
    requires i < |calls| && calls[i].Request? && replies[i].Gave? && NotReleased(calls, i, replies[i].ptr)
    ensures var r, p := Run(s, calls, replies).value, replies[i].ptr;
      && p in r.store && |r.store[p]| == calls[i].size
      && (NotStored(calls, i, p) ==> r.store[p] == replies[i].bytes)
    decreases |calls|
  {
    hide Owns, Step;
    var n := |calls| - 1;
    if i == n {
      StepGave(Run(s, calls[..n], replies[..n]).value, calls[n], replies[n]);
    } else {
      ReturnedKept(s, calls[..n], replies[..n], i);
      assert NotStored(calls, i, replies[i].ptr) ==> NotStored(calls[..n], i, replies[i].ptr);
      StepKeeps(Run(s, calls[..n], replies[..n]).value, calls[n], replies[n]);
    }
  }

  /** Bytes stored during a run, through a pointer neither stored through nor released since, are
      what a load gives at its end. */
  lemma {:induction false} StoredKept(s: State, calls: seq<Call>, replies: seq<Reply>, i: nat)
    requires Owns(s) && |calls| == |replies| && Run(s, calls, replies).Some?
    requires i < |calls| && calls[i].Put? && NotReleased(calls, i, calls[i].ptr)
    requires NotStored(calls, i + 1, calls[i].ptr)
    ensures var r, c := Run(s, calls, replies).value, calls[i];
      && c.ptr in r.store && c.offset + |c.data| <= |r.store[c.ptr]|
      && r.store[c.ptr][c.offset..c.offset + |c.data|] == c.data
    decreases |calls|
  {
    hide Owns, Step, Illegal;
    var n := |calls| - 1;
    var t := Run(s, calls[..n], replies[..n]).value;
    if i == n {
      StepExact(t, calls[n], replies[n]);
    } else {
      assert NotReleased(calls[..n], i, calls[i].ptr) && NotStored(calls[..n], i + 1, calls[i].ptr);
      StoredKept(s, calls[..n], replies[..n], i);
      StepKeeps(t, calls[n], replies[n]);
    }
  }

  /** What different owners requested does not overlap, nor does it meet the tags between. */
  lemma OwnersApart(s: State, p: nat, q: nat)
    requires Owns(s) && p in s.store && q in s.store && p < q
    ensures s.heap.start + HEADER <= p && p + |s.store[p]| + TAGS <= q && q + |s.store[q]| + FOOTER <= s.heap.end
  {
    hide Sound;
    var b :| b in Live(s.heap.blocks) && b.Payload() == p && |s.store[p]| + TAGS <= b.size;
    var c :| c in Live(s.heap.blocks) && c.Payload() == q && |s.store[q]| + TAGS <= c.size;
    LiveDisjoint(s.heap, b, c);
    LiveDisjoint(s.heap, c, b);
  }

  // ---------------------------------------------------------------- nests are runs

  /** The calls and replies of a nest: a request, what is inside, its release, and the rest. */
  ghost function NestCalls(h: Heap, n: Nest): (r: (seq<Call>, seq<Reply>))
    requires Sound(h)
    ensures |r.0| == |r.1|
    decreases n
  {
    match n
    case Done => ([], [])
    case Bracket(size, align, body, rest) =>
      match Alloc(h, size, align)
      case None => ([], [])
      case Some((r, p)) =>
        AllocSound(h, size, align);
        var (inner, seen) := NestCalls(r, body);
        var after := RunNest(h, Bracket(size, align, body, Done));
        var (more, last) := if after.Finished? then NestCalls(after.heap, rest) else ([], []);
        ([Request(size, align)] + inner + [Release(p)] + more, [Gave(p, seq(size, _ => 0))] + seen + [Silent] + last)
  }

  lemma {:induction false} RunAppend(s: State, c: seq<Call>, r: seq<Reply>, c': seq<Call>, r': seq<Reply>)
    requires Owns(s) && |c| == |r| && |c'| == |r'| && Run(s, c, r).Some?
    ensures Run(s, c + c', r + r') == Run(Run(s, c, r).value, c', r')
    decreases |c'|
  {
    hide Owns, Step;
    if c' == [] {
      assert c + c' == c && r + r' == r;
    } else {
      var n := |c'| - 1;
      assert (c + c')[..|c| + n] == c + c'[..n] && (r + r')[..|c| + n] == r + r'[..n];
      RunAppend(s, c, r, c'[..n], r'[..n]);
    }
  }

  lemma RunOne(s: State, call: Call, reply: Reply)
    requires Owns(s)
    ensures Run(s, [call], [reply]) == Step(s, call, reply)
  {
    hide Owns, Step;
    assert [call][..0] == [] && [reply][..0] == [];
  }

  /** The stations of a nest that starts with a bracket. */
  lemma NestStations(h: Heap, n: Nest)
    requires Sound(h) && n.Bracket? && RunNest(h, n).Finished?
    ensures Alloc(h, n.size, n.align).Some?
    ensures var (r, p) := Alloc(h, n.size, n.align).value;
      && Sound(r) && p != 0 && RunNest(r, n.body).Finished?
      && var g := RunNest(r, n.body).heap;
         var k := LiveAt(g.blocks, p);
         && Sound(g) && k < |g.blocks| && g.start <= Merged(g.blocks, k).addr && Sound(Freed(g, k))
         && RunNest(h, Bracket(n.size, n.align, n.body, Done)) == Finished(Freed(g, k))
         && RunNest(h, n) == RunNest(Freed(g, k), n.rest)
  {
    hide Sound, Alloc, Freed, Merged;
    AllocSound(h, n.size, n.align);
    var (r, p) := Alloc(h, n.size, n.align).value;
    var g := RunNest(r, n.body).heap;
    FreedSound(g, LiveAt(g.blocks, p));
  }

  /** A nested run is the run of its calls, beside any store that the nest does not touch. */
  lemma {:induction false} NestRuns(h: Heap, store: map<nat, seq<Byte>>, n: Nest)
    requires Owns(State(h, store)) && RunNest(h, n).Finished?
    ensures var (calls, replies) := NestCalls(h, n);
      Run(State(h, store), calls, replies) == Some(State(RunNest(h, n).heap, store))
    decreases n
  {
    if n.Bracket? {
      hide Sound, Step, Alloc, Freed, Merged, LiveAt, Owns, RunNest, Run;
      OwnsSound(State(h, store));
      NestStations(h, n);
      var (r, p) := Alloc(h, n.size, n.align).value;
      var s0, s1 := State(h, store), State(r, store[p := seq(n.size, _ => 0)]);
      var s2 := State(RunNest(r, n.body).heap, s1.store);
      var s3 := State(RunNest(h, Bracket(n.size, n.align, n.body, Done)).heap, store);
      var request, gave := Request(n.size, n.align), Gave(p, s1.store[p]);
      StepRequest(s0, request, gave);
      StepOwns(s0, request, gave);
      NestRuns(r, s1.store, n.body);
      var (inner, seen) := NestCalls(r, n.body);
      RunOwns(s1, inner, seen);
      StepRelease(s2, p, store, s1.store[p]);
      StepOwns(s2, Release(p), Silent);
      NestRuns(s3.heap, store, n.rest);
      var (more, last) := NestCalls(s3.heap, n.rest);
      RunBracket(s0, request, gave, s1, inner, seen, s2, Release(p), Silent, s3, more, last);
    }
  }

  lemma RunOwns(s: State, c: seq<Call>, r: seq<Reply>)
    requires Owns(s) && |c| == |r| && Run(s, c, r).Some?
    ensures Owns(Run(s, c, r).value)
  {
  }

  lemma RunBracket(s0: State, c: Call, r: Reply, s1: State, inner: seq<Call>, seen: seq<Reply>,
                   s2: State, d: Call, q: Reply, s3: State, more: seq<Call>, last: seq<Reply>)
    requires Owns(s0) && Owns(s1) && Owns(s2) && Owns(s3) && |inner| == |seen| && |more| == |last|
    requires Step(s0, c, r) == Some(s1) && Run(s1, inner, seen) == Some(s2) && Step(s2, d, q) == Some(s3)
    ensures Run(s0, [c] + inner + [d] + more, [r] + seen + [q] + last) == Run(s3, more, last)
  {
    hide Owns, Step, Run;
    RunOne(s0, c, r);
    RunAppend(s0, [c], [r], inner, seen);
    RunOne(s2, d, q);
    RunAppend(s0, [c] + inner, [r] + seen, [d], [q]);
    RunAppend(s0, [c] + inner + [d], [r] + seen + [q], more, last);
  }

  lemma OwnsSound(s: State)
    requires Owns(s)
    ensures Sound(s.heap)
  {
  }

  lemma StepRequest(s: State, call: Call, reply: Reply)
    requires Owns(s) && call.Request? && reply.Gave? && |reply.bytes| == call.size
    requires Alloc(s.heap, call.size, call.align).Some? && reply.ptr == Alloc(s.heap, call.size, call.align).value.1
    ensures reply.ptr !in s.store
    ensures Step(s, call, reply) ==
      Some(State(Alloc(s.heap, call.size, call.align).value.0, s.store[reply.ptr := reply.bytes]))
  {
    hide Sound, Alloc;
    NewPointer(s, call.size, call.align);
  }

  lemma StepRelease(s: State, p: nat, store: map<nat, seq<Byte>>, bytes: seq<Byte>)
    requires Owns(s) && p !in store && s.store == store[p := bytes] && p != 0
    ensures var k := LiveAt(s.heap.blocks, p);
      && k < |s.heap.blocks| && s.heap.start <= Merged(s.heap.blocks, k).addr
      && Step(s, Release(p), Silent) == Some(State(Freed(s.heap, k), store))
  {
    hide Sound, Freed, Merged, LiveAt;
    assert p in s.store && s.store[p] == bytes;
    OwnedAt(s.heap, p, |bytes|);
    assert s.store - {p} == store;
  }
}
