/** fault_stack_pointer of coredump/make_sppe_core_simics.py: the search for the
    interrupted backchain above the exception handler's frame. */
module Backchain {
  import opened Words
  import opened PibMemory

  /** cursor links to parent: the word at cursor is parent, and parent is a
      plausible next frame. */
  predicate Link(memory: seq<byte>, base: int, cursor: int, parent: int) {
    && Word(memory, cursor) == Ok(parent)
    && cursor < parent <= base && parent % 8 == 0 && parent - cursor <= 4096
  }

  /** A walk from candidate: a path of at most eight links. */
  ghost predicate Walk(memory: seq<byte>, base: int, candidate: int, path: seq<int>) {
    && 1 <= |path| <= 9 && path[0] == candidate
    && forall i | 0 <= i < |path| - 1 :: Link(memory, base, path[i], path[i + 1])
  }

  /** The word saved above a frame is a code address. */
  predicate ReturnsToCode(memory: seq<byte>, frame: int) {
    && Word(memory, frame + 4).Ok?
    && MEM_START <= Word(memory, frame + 4).value < MEM_START + |memory|
  }

  /** A candidate is the interrupted backchain when some walk from it has at least
      three links and a code return on one of the frames it reaches. */
  ghost predicate Qualifies(memory: seq<byte>, base: int, candidate: int) {
    exists path :: QualifyingWalk(memory, base, candidate, path)
  }

  ghost predicate QualifyingWalk(memory: seq<byte>, base: int, candidate: int, path: seq<int>) {
    && Walk(memory, base, candidate, path) && |path| >= 4 && SomeCodeReturn(memory, path)
  }

  ghost predicate SomeCodeReturn(memory: seq<byte>, path: seq<int>) {
    exists i :: 1 <= i < |path| && ReturnsToCode(memory, path[i])
  }

  /** Following the chain from a candidate, at most eight links, reads outside the
      image: at the end of a walk, or above a frame the walk reaches. */
  ghost predicate Faults(memory: seq<byte>, base: int, candidate: int) {
    exists path :: FaultingWalk(memory, base, candidate, path)
  }

  ghost predicate FaultingWalk(memory: seq<byte>, base: int, candidate: int, path: seq<int>) {
    && Walk(memory, base, candidate, path)
    && (|| (|path| <= 8 && Word(memory, path[|path| - 1]).Err?)
        || (|path| >= 2 && Word(memory, path[|path| - 1] + 4).Err?))
  }

  /** The first candidate at or after the one given that ends the search, if any. */
  ghost function Search(memory: seq<byte>, base: int, candidate: int): Result<int>
    decreases base - candidate
  {
    if candidate >= base then Err(NotRecovered)
    else if Faults(memory, base, candidate) then Err(OutsidePibmem)
    else if Qualifies(memory, base, candidate) then Ok(candidate)
    else Search(memory, base, candidate + 8)
  }

  /** Where a search starts, before alignment. */
  function Higher(liveSp: int, limit: int): int {
    if liveSp > limit then liveSp else limit
  }

  ghost function FaultStackPointerSpec(memory: seq<byte>, liveSp: int, limit: int, base: int): Result<int> {
    Search(memory, base, RoundUp8(Higher(liveSp, limit)))
  }

  // ---------------------------------------------------------------------------
  // What the search finds
  // ---------------------------------------------------------------------------

  /** The candidates of a search: 8-aligned addresses from start up to the base. */
  predicate Candidate(start: int, base: int, c: int) {
    start <= c < base && c % 8 == 0
  }

  /** The result of a search, declared: c is returned exactly when it is the least
      candidate that qualifies and no candidate up to it faults; the search fails
      as not recovered exactly when no candidate qualifies or faults. */
  lemma {:induction false} SearchExact(memory: seq<byte>, base: int, start: int, c: int)
    requires start % 8 == 0
    ensures Search(memory, base, start) == Ok(c) <==>
      && Candidate(start, base, c) && Qualifies(memory, base, c)
      && (forall d | Candidate(start, base, d) && d < c :: !Qualifies(memory, base, d))
      && (forall d | Candidate(start, base, d) && d <= c :: !Faults(memory, base, d))
    ensures Search(memory, base, start) == Err(NotRecovered) <==>
      forall d | Candidate(start, base, d) :: !Qualifies(memory, base, d) && !Faults(memory, base, d)
    ensures Search(memory, base, start).Err? ==>
      Search(memory, base, start).error in {NotRecovered, OutsidePibmem}
    decreases base - start
  {
    if start < base {
      assert Candidate(start, base, start);
      if !Faults(memory, base, start) && !Qualifies(memory, base, start) {
        SearchExact(memory, base, start + 8, c);
        assert forall d :: Candidate(start, base, d) <==> d == start || Candidate(start + 8, base, d);
      }
    }
  }

  lemma {:induction false} WalkStaysBelow(memory: seq<byte>, base: int, candidate: int, path: seq<int>, i: nat)
    requires Walk(memory, base, candidate, path) && i < |path|
    ensures candidate <= path[i]
    ensures i > 0 ==> candidate < path[i] <= base && path[i] % 8 == 0
  {
    if i > 0 {
      WalkStaysBelow(memory, base, candidate, path, i - 1);
      assert Link(memory, base, path[i - 1], path[i]);
    }
  }

  /** When everything from the candidate to the word above the stack base lies in
      the image, nothing the walk does can leave it. */
  lemma InRangeNeverFaults(memory: seq<byte>, base: int, candidate: int)
    requires MEM_START <= candidate < base && base + 8 <= MEM_START + |memory|
    ensures !Faults(memory, base, candidate)
  {
    forall path | Walk(memory, base, candidate, path)
      ensures !FaultingWalk(memory, base, candidate, path)
    {
      WalkStaysBelow(memory, base, candidate, path, |path| - 1);
    }
  }

  /** Exact backchain search: with [start, base + 8) in the image the search returns
      c exactly when c is the least candidate that qualifies, raises exactly when no
      candidate does, and never reads out of range. */
  lemma ExactInRange(memory: seq<byte>, liveSp: int, limit: int, base: int, c: int)
    requires MEM_START <= RoundUp8(Higher(liveSp, limit))
    requires base + 8 <= MEM_START + |memory|
    ensures
      var start := Higher(liveSp, limit);
      var r := FaultStackPointerSpec(memory, liveSp, limit, base);
      && (r == Ok(c) <==>
           && Candidate(start, base, c) && Qualifies(memory, base, c)
           && forall d | Candidate(start, base, d) && d < c :: !Qualifies(memory, base, d))
      && (r == Err(NotRecovered) <==> forall d | Candidate(start, base, d) :: !Qualifies(memory, base, d))
      && r != Err(OutsidePibmem)
  {
    var start := Higher(liveSp, limit);
    var first := RoundUp8(start);
    assert forall d :: Candidate(start, base, d) <==> Candidate(first, base, d);
    forall d | Candidate(first, base, d)
      ensures !Faults(memory, base, d)
    {
      InRangeNeverFaults(memory, base, d);
    }
    SearchExact(memory, base, first, c);
    var r := Search(memory, base, first);
    if r.Ok? {
      SearchExact(memory, base, first, r.value);
    } else if forall d | Candidate(first, base, d) :: !Qualifies(memory, base, d) {
    } else {
      var d := LeastQualifying(memory, base, first);
      SearchExact(memory, base, first, d);
    }
  }

  /** A search from any start, aligned or not, finds c: the chain begins there, and no
      candidate up to it faults. */
  ghost predicate Reachable(memory: seq<byte>, start: int, base: int, c: int) {
    && Candidate(start, base, c) && Qualifies(memory, base, c)
    && forall d | Candidate(start, base, d) && d <= c :: !Faults(memory, base, d)
  }

  ghost predicate Recoverable(memory: seq<byte>, liveSp: int, limit: int, base: int) {
    exists c :: Reachable(memory, Higher(liveSp, limit), base, c)
  }

  lemma SearchReaches(memory: seq<byte>, base: int, first: int)
    requires first % 8 == 0
    ensures Search(memory, base, first).Ok? <==> exists c :: Reachable(memory, first, base, c)
  {
    if Search(memory, base, first).Ok? {
      var found := Search(memory, base, first).value;
      SearchExact(memory, base, first, found);
      assert Reachable(memory, first, base, found);
    }
    forall c | Reachable(memory, first, base, c)
      ensures Search(memory, base, first).Ok?
    {
      var least := LeastQualifying(memory, base, first);
      assert least <= c;
      SearchExact(memory, base, first, least);
    }
  }

  lemma SameCandidates(memory: seq<byte>, start: int, base: int, c: int)
    ensures Reachable(memory, start, base, c) <==> Reachable(memory, RoundUp8(start), base, c)
  {
    assert forall d :: Candidate(start, base, d) <==> Candidate(RoundUp8(start), base, d);
  }

  /** The search succeeds exactly when some qualifying candidate can be reached. */
  lemma SearchSucceeds(memory: seq<byte>, liveSp: int, limit: int, base: int)
    ensures FaultStackPointerSpec(memory, liveSp, limit, base).Ok? <==> Recoverable(memory, liveSp, limit, base)
  {
    var start := Higher(liveSp, limit);
    SearchReaches(memory, base, RoundUp8(start));
    if FaultStackPointerSpec(memory, liveSp, limit, base).Ok? {
      var c :| Reachable(memory, RoundUp8(start), base, c);
      SameCandidates(memory, start, base, c);
    }
    if Recoverable(memory, liveSp, limit, base) {
      var c :| Reachable(memory, start, base, c);
      SameCandidates(memory, start, base, c);
    }
  }

  lemma LeastQualifying(memory: seq<byte>, base: int, first: int) returns (c: int)
    requires exists d :: Candidate(first, base, d) && Qualifies(memory, base, d)
    ensures Candidate(first, base, c) && Qualifies(memory, base, c)
    ensures forall d | Candidate(first, base, d) && d < c :: !Qualifies(memory, base, d)
  {
    c :| Candidate(first, base, c) && Qualifies(memory, base, c);
    while exists d :: Candidate(first, base, d) && d < c && Qualifies(memory, base, d)
      invariant Candidate(first, base, c) && Qualifies(memory, base, c)
      decreases c - first
    {
      var d :| Candidate(first, base, d) && d < c && Qualifies(memory, base, d);
      c := d;
    }
  }

  // ---------------------------------------------------------------------------
  // The same search by frames
  // ---------------------------------------------------------------------------

  /** The frame n links above one, following the words of the image: every link goes up,
      to a multiple of 8, by at most 4096 bytes and not past the stack base. */
  function FrameAbove(memory: seq<byte>, base: int, frame: int, n: nat): Option<int> {
    if n == 0 then Some(frame)
    else
      match FrameAbove(memory, base, frame, n - 1)
      case None => None
      case Some(below) =>
        if Word(memory, below).Err? then None
        else
          var above: int := Word(memory, below).value;
          if below < above <= base && above % 8 == 0 && above <= below + 4096 then Some(above) else None
  }

  ghost predicate ReachesCode(memory: seq<byte>, base: int, candidate: int, n: nat) {
    && FrameAbove(memory, base, candidate, n).Some?
    && var saved := Word(memory, FrameAbove(memory, base, candidate, n).value + 4);
    saved.Ok? && 0xFFF8_0000 <= saved.value < 0xFFF8_0000 + |memory|
  }

  lemma {:induction false} WalkIsFrames(memory: seq<byte>, base: int, candidate: int, path: seq<int>, i: nat)
    requires Walk(memory, base, candidate, path) && i < |path|
    ensures FrameAbove(memory, base, candidate, i) == Some(path[i])
  {
    if i > 0 {
      WalkIsFrames(memory, base, candidate, path, i - 1);
      assert Link(memory, base, path[i - 1], path[i]);
    }
  }

  lemma {:induction false} FramesAreWalk(memory: seq<byte>, base: int, candidate: int, n: nat) returns (path: seq<int>)
    requires n <= 8 && FrameAbove(memory, base, candidate, n).Some?
    ensures Walk(memory, base, candidate, path) && |path| == n + 1
  {
    if n == 0 {
      path := [candidate];
    } else {
      var init := FramesAreWalk(memory, base, candidate, n - 1);
      WalkIsFrames(memory, base, candidate, init, n - 1);
      var above := FrameAbove(memory, base, candidate, n).value;
      assert Link(memory, base, init[n - 1], above);
      path := init + [above];
      forall i | 0 <= i < |path| - 1
        ensures Link(memory, base, path[i], path[i + 1])
      {
        assert i < n - 1 ==> Link(memory, base, init[i], init[i + 1]);
      }
    }
  }

  /** A candidate qualifies exactly when there are three frames above it, and one of the
      first eight has a code address saved above it. */
  lemma QualifiesByFrames(memory: seq<byte>, base: int, candidate: int)
    ensures Qualifies(memory, base, candidate) <==>
      && FrameAbove(memory, base, candidate, 3).Some?
      && exists n: nat :: 1 <= n <= 8 && ReachesCode(memory, base, candidate, n)
  {
    if path :| QualifyingWalk(memory, base, candidate, path) {
      QualifiedFrames(memory, base, candidate, path);
    }
    if FrameAbove(memory, base, candidate, 3).Some?
       && exists n: nat :: 1 <= n <= 8 && ReachesCode(memory, base, candidate, n) {
      var n: nat :| 1 <= n <= 8 && ReachesCode(memory, base, candidate, n);
      FramesQualify(memory, base, candidate, n);
    }
  }

  lemma QualifiedFrames(memory: seq<byte>, base: int, candidate: int, path: seq<int>)
    requires QualifyingWalk(memory, base, candidate, path)
    ensures FrameAbove(memory, base, candidate, 3).Some?
    ensures exists n: nat :: 1 <= n <= 8 && ReachesCode(memory, base, candidate, n)
  {
    WalkIsFrames(memory, base, candidate, path, 3);
    var i :| 1 <= i < |path| && ReturnsToCode(memory, path[i]);
    WalkIsFrames(memory, base, candidate, path, i);
    assert ReachesCode(memory, base, candidate, i);
  }

  lemma FramesQualify(memory: seq<byte>, base: int, candidate: int, n: nat)
    requires FrameAbove(memory, base, candidate, 3).Some? && 1 <= n <= 8 && ReachesCode(memory, base, candidate, n)
    ensures Qualifies(memory, base, candidate)
  {
    var m := if n < 3 then 3 else n;
    var path := FramesAreWalk(memory, base, candidate, m);
    WalkIsFrames(memory, base, candidate, path, n);
    assert ReturnsToCode(memory, path[n]);
    assert QualifyingWalk(memory, base, candidate, path);
  }

  /** Its chain leaves the image exactly when one of the frames that are looked at, the
      first eight links or the words above them, cannot be read. */
  lemma FaultsByFrames(memory: seq<byte>, base: int, candidate: int)
    ensures Faults(memory, base, candidate) <==>
      exists n: nat :: n <= 8 && UnreadableFrame(memory, base, candidate, n)
  {
    if Faults(memory, base, candidate) {
      var path :| FaultingWalk(memory, base, candidate, path);
      WalkIsFrames(memory, base, candidate, path, |path| - 1);
      assert UnreadableFrame(memory, base, candidate, |path| - 1);
    }
    if n: nat :| n <= 8 && UnreadableFrame(memory, base, candidate, n) {
      var path := FramesAreWalk(memory, base, candidate, n);
      WalkIsFrames(memory, base, candidate, path, n);
      assert FaultingWalk(memory, base, candidate, path);
    }
  }

  ghost predicate UnreadableFrame(memory: seq<byte>, base: int, candidate: int, n: nat) {
    && FrameAbove(memory, base, candidate, n).Some?
    && var frame := FrameAbove(memory, base, candidate, n).value;
    || (n < 8 && !InPibmem(memory, frame))
    || (n > 0 && !InPibmem(memory, frame + 4))
  }

  // ---------------------------------------------------------------------------
  // The loops
  // ---------------------------------------------------------------------------

  /** The chain is deterministic: two walks from one candidate agree where both are. */
  lemma {:induction false} WalksAgree(memory: seq<byte>, base: int, candidate: int, p: seq<int>, q: seq<int>, i: nat)
    requires Walk(memory, base, candidate, p) && Walk(memory, base, candidate, q)
    requires i < |p| && i < |q|
    ensures p[i] == q[i]
  {
    if i > 0 {
      WalksAgree(memory, base, candidate, p, q, i - 1);
      assert Link(memory, base, p[i - 1], p[i]) && Link(memory, base, q[i - 1], q[i]);
    }
  }

  /** The chain ends here: the word read is no plausible parent. */
  predicate Dead(memory: seq<byte>, base: int, cursor: int) {
    Word(memory, cursor).Ok? && !Link(memory, base, cursor, Word(memory, cursor).value)
  }

  ghost predicate AllRead(memory: seq<byte>, path: seq<int>) {
    && (forall i | 0 <= i < |path| - 1 :: Word(memory, path[i]).Ok?)
    && (forall i | 1 <= i < |path| :: Word(memory, path[i] + 4).Ok?)
  }

  /** A walk that cannot be extended, all of whose reads succeeded. */
  ghost predicate Complete(memory: seq<byte>, base: int, candidate: int, p: seq<int>) {
    && Walk(memory, base, candidate, p) && AllRead(memory, p)
    && (|p| == 9 || Dead(memory, base, p[|p| - 1]))
  }

  lemma NotDead(memory: seq<byte>, base: int, candidate: int, q: seq<int>, i: nat)
    requires Walk(memory, base, candidate, q) && i + 1 < |q|
    ensures !Dead(memory, base, q[i])
  {
    assert Link(memory, base, q[i], q[i + 1]);
  }

  /** Every walk is a prefix of a complete one. */
  lemma PrefixOfComplete(memory: seq<byte>, base: int, candidate: int, p: seq<int>, q: seq<int>)
    requires Complete(memory, base, candidate, p) && Walk(memory, base, candidate, q)
    ensures |q| <= |p| && q == p[..|q|]
  {
    var n := if |q| < |p| then |q| else |p|;
    forall i | 0 <= i < n
      ensures p[i] == q[i]
    {
      WalksAgree(memory, base, candidate, p, q, i);
    }
    if |q| > |p| {
      NotDead(memory, base, candidate, q, |p| - 1);
    }
  }

  /** A complete walk decides its candidate. */
  lemma CompleteDecides(memory: seq<byte>, base: int, candidate: int, p: seq<int>)
    requires Complete(memory, base, candidate, p)
    ensures !Faults(memory, base, candidate)
    ensures Qualifies(memory, base, candidate) <==> |p| >= 4 && SomeCodeReturn(memory, p)
  {
    forall q | Walk(memory, base, candidate, q)
      ensures !FaultingWalk(memory, base, candidate, q)
      ensures QualifyingWalk(memory, base, candidate, q) ==> QualifyingWalk(memory, base, candidate, p)
    {
      PrefixOfComplete(memory, base, candidate, p, q);
    }
    assert QualifyingWalk(memory, base, candidate, p) <==> |p| >= 4 && SomeCodeReturn(memory, p);
  }

  lemma Extend(memory: seq<byte>, base: int, candidate: int, path: seq<int>, parent: int)
    requires Walk(memory, base, candidate, path) && |path| <= 8
    requires Link(memory, base, path[|path| - 1], parent)
    ensures Walk(memory, base, candidate, path + [parent])
    ensures AllRead(memory, path) && Word(memory, parent + 4).Ok? ==> AllRead(memory, path + [parent])
    ensures SomeCodeReturn(memory, path + [parent]) <==>
            SomeCodeReturn(memory, path) || ReturnsToCode(memory, parent)
  {
    var longer := path + [parent];
    assert longer[|path|] == parent;
    if SomeCodeReturn(memory, path) {
      var i :| 1 <= i < |path| && ReturnsToCode(memory, path[i]);
      assert ReturnsToCode(memory, longer[i]);
    }
  }

  /** The inner loop: follows parents from a candidate, counting links and code
      returns. Stops with an error at the first read outside the image. */
  method Probe(memory: seq<byte>, base: int, candidate: int) returns (r: Result<bool>)
    ensures r == Ok(true) <==> !Faults(memory, base, candidate) && Qualifies(memory, base, candidate)
    ensures r == Ok(false) <==> !Faults(memory, base, candidate) && !Qualifies(memory, base, candidate)
    ensures r.Err? ==> r.error == OutsidePibmem
  {
    var cursor, links, codeReturns := candidate, 0, 0;
    ghost var path := [candidate];
    while links < 8
      invariant 0 <= codeReturns <= links <= 8
      invariant |path| == links + 1 && path[links] == cursor
      invariant Walk(memory, base, candidate, path) && AllRead(memory, path)
      invariant codeReturns > 0 <==> SomeCodeReturn(memory, path)
    {
      var parent: u32 :- Readable(memory, base, candidate, path, cursor);
      if parent <= cursor || parent > base || parent % 8 != 0 || parent - cursor > 4096 {
        break;
      }
      Extend(memory, base, candidate, path, parent);
      path := path + [parent];
      var returnWord: u32 :- Readable(memory, base, candidate, path, parent + 4);
      if MEM_START <= returnWord < MEM_START + |memory| {
        codeReturns := codeReturns + 1;
      }
      cursor := parent;
      links := links + 1;
    }
    CompleteDecides(memory, base, candidate, path);
    return Ok(links >= 3 && codeReturns > 0);
  }

  /** A read of the walk: at its end, or above it. A failure is a fault of the candidate. */
  method Readable(memory: seq<byte>, base: int, candidate: int, ghost path: seq<int>, address: int)
    returns (r: Result<u32>)
    requires Walk(memory, base, candidate, path)
    requires (|path| <= 8 && address == path[|path| - 1]) || (|path| >= 2 && address == path[|path| - 1] + 4)
    ensures r == Word(memory, address)
    ensures r.Err? ==> Faults(memory, base, candidate)
  {
    r := Word(memory, address);
    assert r.Err? ==> FaultingWalk(memory, base, candidate, path);
  }

  /** fault_stack_pointer: the outer loop over the candidates. */
  method FaultStackPointer(memory: seq<byte>, liveSp: int, limit: int, base: int) returns (r: Result<int>)
    ensures r == FaultStackPointerSpec(memory, liveSp, limit, base)
  {
    var start := RoundUp8(Higher(liveSp, limit));
    var candidate := start;
    while candidate < base
      invariant Search(memory, base, candidate) == Search(memory, base, start)
      decreases base - candidate
    {
      var found :- Probe(memory, base, candidate);
      if found {
        return Ok(candidate);
      }
      candidate := candidate + 8;
    }
    return Err(NotRecovered);
  }
}
