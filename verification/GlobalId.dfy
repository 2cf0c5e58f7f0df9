/** Generation of globally unique 61-bit ids from server, clock and sequence number, and the packed
    and decimal encodings of user ids. */
module GlobalId {
  import opened Bits

  const ID_ALLOCATOR_TYPE_MAX: nat := 30
  const CYCLE: nat := 0x7FFF   // sequence numbers 0..0x7FFE are used in turn

  lemma Powers()
    ensures Pow2(3) == 8 && Pow2(5) == 32 && Pow2(2) == 4 && Pow2(8) == 256
    ensures Pow2(11) == 0x800 && Pow2(15) == 0x8000 && Pow2(18) == 0x4_0000 && Pow2(21) == 0x20_0000
    ensures Pow2(27) == 0x800_0000 && Pow2(32) == 0x1_0000_0000 && Pow2(40) == 0x100_0000_0000
    ensures Pow2(42) == 0x400_0000_0000 && Pow2(45) == 0x2000_0000_0000 && Pow2(56) == 0x100_0000_0000_0000
  {
    Pow2Values();
    Pow2Add(18, 3);
    Pow2Add(32, 8);
    Pow2Add(40, 2);
    Pow2Add(42, 3);
    Pow2Add(45, 11);
  }

  // ----- Ids -----

  /* The state of an allocator. */
  datatype Alloc = Alloc(isInit: bool, groupId: word, index: word, seqNo: word, startTime: word)

  /* Five fields side by side: 5 bits of type, 11 of group, 3 of index, 27 of time, 15 of sequence number. */
  function Pack(kind: nat, group: nat, index: nat, time: nat, seqNo: nat): nat {
    (((kind * 0x800 + group) * 8 + index) * 0x800_0000 + time) * 0x8000 + seqNo
  }

  /* Where the fields lie: at bits 56, 45, 42, 15 and 0. */
  lemma PackMeans(kind: nat, group: nat, index: nat, time: nat, seqNo: nat)
    ensures Pack(kind, group, index, time, seqNo)
            == kind * 0x100_0000_0000_0000 + group * 0x2000_0000_0000 + index * 0x400_0000_0000 + time * 0x8000 + seqNo
  {
  }

  function NextSeq(seqNo: nat): nat {
    if seqNo + 1 >= CYCLE then 0 else seqNo + 1
  }

  function GenId(a: Alloc, kind: nat, now: int): (Alloc, nat)
  {
    if kind >= ID_ALLOCATOR_TYPE_MAX || !a.isInit then (a, 0)
    else
      var a' := a.(seqNo := NextSeq(a.seqNo));
      (a', if now < a.startTime then 0
           else Pack(kind, a.groupId % 0x800, a.index % 8, (now - a.startTime) % 0x800_0000, a'.seqNo))
  }

  predicate GoodServer(groupId: word, index: word, isGlobal: bool) {
    (if isGlobal then 1500 < groupId <= 2047 else 0 < groupId <= 1500) && index <= 7
  }

  class IdAllocator {
    var isInit: bool
    var groupId: word
    var index: word
    var seqNo: word
    var startTime: word

    function State(): Alloc
      reads this
    {
      Alloc(isInit, groupId, index, seqNo, startTime)
    }

    constructor ()
      ensures State() == Alloc(false, 0, 0, 0, 0)
    {
      isInit, groupId, index, seqNo, startTime := false, 0, 0, 0, 0;
    }

    /* start is the parsed start date (0 when it cannot be parsed), now the clock. The identity and the
       sequence number are written before anything is checked. */
    method Init(srvGroupId: word, srvIdx: word, start: word, isGlobal: bool, now: word) returns (ok: bool)
      modifies this
      ensures ok <==>
              && (if isGlobal then 1501 <= srvGroupId <= 2047 else 1 <= srvGroupId <= 1500)
              && srvIdx <= 7 && 0 < start < now
      ensures ok <==> GoodServer(srvGroupId, srvIdx, isGlobal) && 0 < start < now
      ensures State() == Alloc(ok || old(isInit), srvGroupId, srvIdx, 0,
                               if GoodServer(srvGroupId, srvIdx, isGlobal) then start else old(startTime))
    {
      groupId := srvGroupId;
      index := srvIdx;
      seqNo := 0;
      if isGlobal {
        if srvGroupId <= 1500 || srvGroupId > 2047 {
          return false;
        }
      } else {
        if srvGroupId == 0 || srvGroupId > 1500 {
          return false;
        }
      }
      if index > 7 {
        return false;
      }
      startTime := start;
      if startTime == 0 {
        return false;
      }
      if now <= startTime {
        return false;
      }
      isInit := true;
      return true;
    }

    method GenNewId(kind: nat, now: int) returns (id: nat)
      requires seqNo < CYCLE
      modifies this`seqNo
      ensures (State(), id) == GenId(old(State()), kind, now)
      ensures seqNo < CYCLE
      ensures var taken := kind < 30 && isInit;
              && seqNo == (if taken then (old(seqNo) + 1) % 32767 else old(seqNo))
              && id == (if taken && now >= startTime then
                          kind * 0x100_0000_0000_0000 + groupId % 2048 * 0x2000_0000_0000
                          + index % 8 * 0x400_0000_0000 + (now - startTime) % 0x800_0000 * 0x8000 + seqNo
                        else 0)
    {
      PackMeans(kind, groupId % 0x800, index % 8, (now - startTime) % 0x800_0000, NextSeq(seqNo));
      if kind >= ID_ALLOCATOR_TYPE_MAX {
        return 0;
      }
      if !isInit {
        return 0;
      }
      hide Pack;
      seqNo := (seqNo + 1) % U32;
      if seqNo >= 0x7FFF {
        seqNo := 0;
      }
      if now < startTime {
        return 0;
      }
      id := Compose(kind, groupId, index, now - startTime, seqNo);
    }

    static method Compose(kind: nat, group: word, index: word, elapsed: nat, seqNo: word) returns (id: nat)
      requires kind < ID_ALLOCATOR_TYPE_MAX && seqNo < CYCLE
      ensures id == Pack(kind, group % 0x800, index % 8, elapsed % 0x800_0000, seqNo)
    {
      hide Or, And, Shl, Pack;
      id := 0;
      id := Or(id, Shl(And(0x1F, kind), 56));
      id := Or(id, Shl(And(0x7FF, group), 45));
      id := Or(id, Shl(And(0x7, index), 42));
      id := Or(id, Shl(And(0x7FFFFFF, elapsed), 15));
      id := Or(id, And(0x7FFF, seqNo));
      OrsArePack(kind, group, index, elapsed, seqNo);
    }
  }

  /* Or-ing a w-bit field in just below what is already there. */
  lemma AppendField(hi: nat, x: nat, w: nat, n: nat)
    requires x < Pow2(w)
    ensures Or(Shl(hi, w + n), Shl(x, n)) == Shl(hi * Pow2(w) + x, n)
  {
    var p, q := Pow2(w), Pow2(n);
    Pow2Add(w, n);
    Scaled(hi, x, p, q);
    OrDisjoint(hi, x * q, w + n);
  }

  lemma Scaled(hi: nat, x: nat, p: nat, q: nat)
    requires x < p && q > 0
    ensures 0 <= x * q < p * q
    ensures hi * (p * q) + x * q == (hi * p + x) * q
  {
    SmallMultiple(q, p - x);
    Expand(q, p, x);
    Associate(p, q, hi);
    var neg: int := 0 - x as int;
    Expand(q, hi * p, neg);
  }

  /** Masking, shifting and or-ing the five fields lays them side by side. */
  lemma OrsArePack(kind: nat, group: nat, index: nat, time: nat, seqNo: nat)
    ensures Or(Or(Or(Or(Or(0, Shl(And(0x1F, kind), 56)), Shl(And(0x7FF, group), 45)), Shl(And(0x7, index), 42)),
                  Shl(And(0x7FFFFFF, time), 15)), And(0x7FFF, seqNo))
            == Pack(kind % 32, group % 0x800, index % 8, time % 0x800_0000, seqNo % 0x8000)
  {
    hide Or, And, Shl, Pack;
    Masks(kind, group, index, time, seqNo);
    OrsArePackFields(kind % 32, group % 0x800, index % 8, time % 0x800_0000, seqNo % 0x8000);
  }

  lemma Masks(kind: nat, group: nat, index: nat, time: nat, seqNo: nat)
    ensures And(kind, 0x1F) == kind % 32 && And(group, 0x7FF) == group % 0x800 && And(index, 0x7) == index % 8
    ensures And(0x1F, kind) == kind % 32 && And(0x7FF, group) == group % 0x800 && And(0x7, index) == index % 8
    ensures And(0x7FFFFFF, time) == time % 0x800_0000 && And(0x7FFF, seqNo) == seqNo % 0x8000
    ensures And(time, 0x7FFFFFF) == time % 0x800_0000 && And(seqNo, 0x7FFF) == seqNo % 0x8000
  {
    hide And;
    Powers();
    AndMask(kind, 5);
    AndMask(group, 11);
    AndMask(index, 3);
    AndMask(time, 27);
    AndMask(seqNo, 15);
  }

  lemma OrsArePackFields(k: nat, g: nat, i: nat, t: nat, s: nat)
    requires g < 0x800 && i < 8 && t < 0x800_0000 && s < 0x8000
    ensures Or(Or(Or(Or(Or(0, Shl(k, 56)), Shl(g, 45)), Shl(i, 42)), Shl(t, 15)), s) == Pack(k, g, i, t, s)
  {
    hide Or;
    Powers();
    OrZero(Shl(k, 56));
    AppendField(k, g, 11, 45);
    AppendField(k * 0x800 + g, i, 3, 42);
    AppendField((k * 0x800 + g) * 8 + i, t, 27, 15);
    OrDisjoint(((k * 0x800 + g) * 8 + i) * 0x800_0000 + t, s, 15);
  }

  // ----- Reading the fields back -----

  function GetAllocatorType(uid: nat): nat { And(Shr(uid, 56), 0x1F) }
  function GetSrvGroupId(uid: nat): nat { And(Shr(uid, 45), 0x7FF) }
  function GetSrvIndex(uid: nat): nat { And(Shr(uid, 42), 0x7) }
  function GetGenTime(uid: nat): nat { And(Shr(uid, 15), 0x7FFFFFF) }
  function GetSeq(uid: nat): nat { And(uid, 0x7FFF) }

  lemma Quotients(k: nat, g: nat, i: nat, t: nat, s: nat)
    requires g < 0x800 && i < 8 && t < 0x800_0000 && s < 0x8000
    ensures var id := Pack(k, g, i, t, s);
            && id / 0x8000 == ((k * 0x800 + g) * 8 + i) * 0x800_0000 + t && id % 0x8000 == s
            && id / 0x400_0000_0000 == (k * 0x800 + g) * 8 + i
            && id / 0x2000_0000_0000 == k * 0x800 + g
            && id / 0x100_0000_0000_0000 == k
  {
    var id := Pack(k, g, i, t, s);
    DivModUnique(id, 0x8000, ((k * 0x800 + g) * 8 + i) * 0x800_0000 + t, s);
    DivModUnique(id, 0x400_0000_0000, (k * 0x800 + g) * 8 + i, t * 0x8000 + s);
    DivModUnique(id, 0x2000_0000_0000, k * 0x800 + g, (i * 0x800_0000 + t) * 0x8000 + s);
    DivModUnique(id, 0x100_0000_0000_0000, k, ((g * 8 + i) * 0x800_0000 + t) * 0x8000 + s);
  }

  lemma Getters(uid: nat)
    ensures GetAllocatorType(uid) == uid / 0x100_0000_0000_0000 % 32
    ensures GetSrvGroupId(uid) == uid / 0x2000_0000_0000 % 0x800
    ensures GetSrvIndex(uid) == uid / 0x400_0000_0000 % 8
    ensures GetGenTime(uid) == uid / 0x8000 % 0x800_0000
    ensures GetSeq(uid) == uid % 0x8000
  {
    hide And;
    Powers();
    Masks(Shr(uid, 56), Shr(uid, 45), Shr(uid, 42), Shr(uid, 15), uid);
  }

  /** The getters return the five fields an id was packed from. */
  lemma UnpackPack(k: nat, g: nat, i: nat, t: nat, s: nat)
    requires k < 32 && g < 0x800 && i < 8 && t < 0x800_0000 && s < 0x8000
    ensures var id := Pack(k, g, i, t, s);
            && GetAllocatorType(id) == k && GetSrvGroupId(id) == g && GetSrvIndex(id) == i
            && GetGenTime(id) == t && GetSeq(id) == s
  {
    hide *;
    var id := Pack(k, g, i, t, s);
    Getters(id);
    Quotients(k, g, i, t, s);
    DivModUnique(k, 32, 0, k);
    DivModUnique(k * 0x800 + g, 0x800, k, g);
    DivModUnique((k * 0x800 + g) * 8 + i, 8, k * 0x800 + g, i);
    DivModUnique(((k * 0x800 + g) * 8 + i) * 0x800_0000 + t, 0x800_0000, (k * 0x800 + g) * 8 + i, t);
  }

  lemma PackInjective(k: nat, g: nat, i: nat, t: nat, s: nat, k': nat, g': nat, i': nat, t': nat, s': nat)
    requires k < 32 && g < 0x800 && i < 8 && t < 0x800_0000 && s < 0x8000
    requires k' < 32 && g' < 0x800 && i' < 8 && t' < 0x800_0000 && s' < 0x8000
    ensures Pack(k, g, i, t, s) == Pack(k', g', i', t', s') <==> k == k' && g == g' && i == i' && t == t' && s == s'
  {
    hide Pack, GetAllocatorType, GetSrvGroupId, GetSrvIndex, GetGenTime, GetSeq;
    UnpackPack(k, g, i, t, s);
    UnpackPack(k', g', i', t', s');
  }

  // ----- Runs -----

  datatype Call = Call(kind: nat, now: int)

  function Ids(a: Alloc, calls: seq<Call>): (ids: seq<nat>)
    ensures |ids| == |calls|
    decreases |calls|
  {
    if |calls| == 0 then []
    else
      var (a', id) := GenId(a, calls[0].kind, calls[0].now);
      [id] + Ids(a', calls[1..])
  }

  predicate Takes(c: Call) { c.kind < ID_ALLOCATOR_TYPE_MAX }

  /* How many calls advanced the sequence number. */
  function Issued(calls: seq<Call>): nat {
    if |calls| == 0 then 0 else (if Takes(calls[0]) then 1 else 0) + Issued(calls[1..])
  }

  /* How many of them fell into second t. */
  function IssuedAt(calls: seq<Call>, t: int): nat {
    if |calls| == 0 then 0 else (if Takes(calls[0]) && calls[0].now == t then 1 else 0) + IssuedAt(calls[1..], t)
  }

  predicate Ready(a: Alloc) { a.isInit && a.seqNo < CYCLE }

  /* The id a call gets when n ids have been issued since the sequence number was zero, its own included. */
  function IdOf(a: Alloc, c: Call, n: nat): nat {
    if !Takes(c) || c.now < a.startTime then 0
    else Pack(c.kind, a.groupId % 0x800, a.index % 8, Elapsed(a, c), n % CYCLE)
  }

  /* Seconds since the start, on 27 bits. */
  function Elapsed(a: Alloc, c: Call): (t: nat)
    ensures t < 0x800_0000
  {
    (c.now - a.startTime) % 0x800_0000
  }

  lemma SameIdIff(a: Alloc, c: Call, m: nat, d: Call, n: nat)
    requires Takes(c) && Takes(d) && c.now >= a.startTime && d.now >= a.startTime
    ensures IdOf(a, c, m) == IdOf(a, d, n) <==>
            c.kind == d.kind && Elapsed(a, c) == Elapsed(a, d) && m % CYCLE == n % CYCLE
  {
    hide Pack, Elapsed;
    PackInjective(c.kind, a.groupId % 0x800, a.index % 8, Elapsed(a, c), m % CYCLE,
                  d.kind, a.groupId % 0x800, a.index % 8, Elapsed(a, d), n % CYCLE);
  }

  /** The id of the i-th call of any run. */
  lemma {:induction false} IdAt(a: Alloc, calls: seq<Call>, i: nat)
    requires Ready(a) && i < |calls|
    ensures Ids(a, calls)[i] == IdOf(a, calls[i], a.seqNo + Issued(calls[..i + 1]))
    decreases |calls|
  {
    hide Pack;
    var (a', id) := GenId(a, calls[0].kind, calls[0].now);
    assert calls[..i + 1][1..] == calls[1..][..i];
    if i > 0 {
      IdAt(a', calls[1..], i - 1);
      if Takes(calls[0]) {
        Advance(a.seqNo, Issued(calls[1..][..i]));
      }
    } else {
      assert Issued(calls[..1]) == (if Takes(calls[0]) then 1 else 0) + Issued([]);
    }
  }

  lemma Advance(seqNo: nat, n: nat)
    requires seqNo < CYCLE
    ensures (NextSeq(seqNo) + n) % CYCLE == (seqNo + 1 + n) % CYCLE
    ensures NextSeq(seqNo) == (seqNo + 1) % CYCLE
  {
  }

  lemma {:induction false} IssuedAppend(p: seq<Call>, q: seq<Call>, t: int)
    ensures Issued(p + q) == Issued(p) + Issued(q) && IssuedAt(p + q, t) == IssuedAt(p, t) + IssuedAt(q, t)
  {
    if |p| == 0 {
      assert p + q == q;
    } else {
      assert (p + q)[1..] == p[1..] + q;
      IssuedAppend(p[1..], q, t);
    }
  }

  /** Two calls of one run collide exactly when type and second (modulo 2^27) agree and the number of ids
      drawn between them is a multiple of 32767. */
  lemma CollideIff(a: Alloc, calls: seq<Call>, i: nat, j: nat)
    requires Ready(a) && i < j < |calls|
    requires Takes(calls[i]) && Takes(calls[j]) && calls[i].now >= a.startTime && calls[j].now >= a.startTime
    ensures Ids(a, calls)[i] == Ids(a, calls)[j] <==>
            && calls[i].kind == calls[j].kind
            && Elapsed(a, calls[i]) == Elapsed(a, calls[j])
            && Issued(calls[i + 1..j + 1]) % CYCLE == 0
  {
    hide IdOf, Elapsed, Ids;
    IdAt(a, calls, i);
    IdAt(a, calls, j);
    assert calls[..j + 1] == calls[..i + 1] + calls[i + 1..j + 1];
    IssuedAppend(calls[..i + 1], calls[i + 1..j + 1], 0);
    var s, n := a.seqNo + Issued(calls[..i + 1]), Issued(calls[i + 1..j + 1]);
    SameResidue(s, n);
    SameIdIff(a, calls[i], s, calls[j], s + n);
  }

  lemma SameResidue(s: nat, n: nat)
    ensures s % CYCLE == (s + n) % CYCLE <==> n % CYCLE == 0
  {
  }

  /* A clock that never steps back, less than 2^27 seconds of running, at most 32767 ids a second. */
  ghost predicate Orderly(start: int, calls: seq<Call>) {
    && (forall m, n :: 0 <= m < n < |calls| ==> calls[m].now <= calls[n].now)
    && (forall m :: 0 <= m < |calls| ==> start <= calls[m].now < start + 0x800_0000)
    && (forall t :: IssuedAt(calls, t) <= CYCLE)
  }

  /** In an orderly run no two ids are equal. */
  lemma IdsAreUnique(a: Alloc, calls: seq<Call>, i: nat, j: nat)
    requires Ready(a) && i < j < |calls| && Takes(calls[i]) && Takes(calls[j])
    requires Orderly(a.startTime, calls)
    ensures Ids(a, calls)[i] != Ids(a, calls)[j]
  {
    hide Ids;
    CollideIff(a, calls, i, j);
    if Ids(a, calls)[i] == Ids(a, calls)[j] {
      var t := calls[i].now;
      SmallModulo(t - a.startTime);
      SmallModulo(calls[j].now - a.startTime);
      assert calls[j].now == t;
      TooMany(calls, i, j, t);
      assert false;
    }
  }

  lemma TooMany(calls: seq<Call>, i: nat, j: nat, t: int)
    requires i < j < |calls| && Takes(calls[i]) && Takes(calls[j]) && Issued(calls[i + 1..j + 1]) % CYCLE == 0
    requires forall m :: i <= m <= j ==> calls[m].now == t
    ensures IssuedAt(calls, t) > CYCLE
  {
    var mid, rest := calls[i..j + 1], calls[j + 1..];
    var later := mid[1..];
    assert calls == calls[..i] + (mid + rest) && later == calls[i + 1..j + 1] && mid[0] == calls[i];
    assert Issued(mid) == 1 + Issued(later);
    hide Issued, IssuedAt, Takes;
    AllInSecond(mid, t);
    IssuedAppend(calls[..i], mid + rest, t);
    IssuedAppend(mid, rest, t);
    assert later[|later| - 1] == calls[j];
    LastCounts(later);
    AtLeastCycle(Issued(later));
  }

  lemma AtLeastCycle(n: nat)
    requires n > 0 && n % CYCLE == 0
    ensures n >= CYCLE
  {
  }

  lemma SmallModulo(n: nat)
    requires n < 0x800_0000
    ensures n % 0x800_0000 == n
  {
  }

  lemma {:induction false} AllInSecond(calls: seq<Call>, t: int)
    requires forall m :: 0 <= m < |calls| ==> calls[m].now == t
    ensures IssuedAt(calls, t) == Issued(calls)
  {
    if |calls| == 0 {
    } else {
      AllInSecond(calls[1..], t);
    }
  }

  lemma LastCounts(calls: seq<Call>)
    requires |calls| > 0 && Takes(calls[|calls| - 1])
    ensures Issued(calls) > 0
  {
    var n := |calls| - 1;
    assert calls == calls[..n] + [calls[n]] && [calls[n]][1..] == [];
    IssuedAppend(calls[..n], [calls[n]], 0);
    assert Issued([calls[n]]) == 1 + Issued([calls[n]][1..]);
  }

  /** The rate limit is exact: n calls for the same type within one second give distinct ids if and only if
      n is at most 32767. */
  lemma BurstIff(a: Alloc, c: Call, n: nat)
    requires Ready(a) && Takes(c) && c.now >= a.startTime
    ensures var ids := Ids(a, Burst(c, n));
            (forall i, j :: 0 <= i < j < n ==> ids[i] != ids[j]) <==> n <= CYCLE
  {
    hide Ids;
    var calls, ids := Burst(c, n), Ids(a, Burst(c, n));
    if n <= CYCLE {
      forall i, j | 0 <= i < j < n
        ensures ids[i] != ids[j]
      {
        BurstCollideIff(a, c, n, i, j);
      }
    } else {
      BurstCollideIff(a, c, n, 0, CYCLE);
      assert ids[0] == ids[CYCLE];
    }
  }

  lemma BurstCollideIff(a: Alloc, c: Call, n: nat, i: nat, j: nat)
    requires Ready(a) && Takes(c) && c.now >= a.startTime && i < j < n
    ensures Ids(a, Burst(c, n))[i] == Ids(a, Burst(c, n))[j] <==> (j - i) % CYCLE == 0
  {
    hide Ids;
    CollideIff(a, Burst(c, n), i, j);
    assert Burst(c, n)[i + 1..j + 1] == Burst(c, j - i);
    BurstIssued(c, j - i);
  }

  function Burst(c: Call, n: nat): (calls: seq<Call>)
    ensures |calls| == n && forall i :: 0 <= i < n ==> calls[i] == c
  {
    if n == 0 then [] else Burst(c, n - 1) + [c]
  }

  lemma {:induction false} BurstIssued(c: Call, n: nat)
    requires Takes(c)
    ensures Issued(Burst(c, n)) == n
  {
    if n == 0 {
    } else {
      BurstIssued(c, n - 1);
      IssuedAppend(Burst(c, n - 1), [c], 0);
      assert Issued([c]) == 1 + Issued([c][1..]);
    }
  }

  /** Ids of servers with different group or index never meet, whatever their clocks and counters do. */
  lemma ServersNeverCollide(a: Alloc, b: Alloc, kind: nat, now: int, kind': nat, now': int)
    requires Ready(a) && Ready(b) && 0 < a.groupId <= 2047 && a.index <= 7 && 0 < b.groupId <= 2047 && b.index <= 7
    requires (a.groupId, a.index) != (b.groupId, b.index)
    requires GenId(a, kind, now).1 != 0 && GenId(b, kind', now').1 != 0
    ensures GenId(a, kind, now).1 != GenId(b, kind', now').1
  {
    hide Pack;
    PackInjective(kind, a.groupId, a.index, (now - a.startTime) % 0x800_0000, NextSeq(a.seqNo),
                  kind', b.groupId, b.index, (now' - b.startTime) % 0x800_0000, NextSeq(b.seqNo));
  }

  /** On an initialised server zero is returned exactly when nothing was issued, and every other id reads
      back as type, server, elapsed time and sequence number. */
  lemma IdMeaning(a: Alloc, kind: nat, now: int)
    requires Ready(a) && 0 < a.groupId <= 2047 && a.index <= 7
    ensures var (a', id) := GenId(a, kind, now);
            && (id == 0 <==> kind >= ID_ALLOCATOR_TYPE_MAX || now < a.startTime)
            && id < 0x2000_0000_0000_0000
            && (id != 0 ==>
                  && GetAllocatorType(id) == kind && GetSrvGroupId(id) == a.groupId && GetSrvIndex(id) == a.index
                  && GetGenTime(id) == (now - a.startTime) % 0x800_0000 && GetSeq(id) == a'.seqNo)
  {
    hide GetAllocatorType, GetSrvGroupId, GetSrvIndex, GetGenTime, GetSeq;
    if kind < ID_ALLOCATOR_TYPE_MAX && now >= a.startTime {
      UnpackPack(kind, a.groupId, a.index, (now - a.startTime) % 0x800_0000, NextSeq(a.seqNo));
    }
  }

  /** Successive calls on one allocator return exactly the ids of the run. */
  method Generate(alloc: IdAllocator, calls: seq<Call>) returns (ids: seq<nat>)
    requires alloc.seqNo < CYCLE
    modifies alloc`seqNo
    ensures ids == Ids(old(alloc.State()), calls)
  {
    hide GenId;
    ids := [];
    for k := 0 to |calls|
      invariant alloc.seqNo < CYCLE
      invariant ids + Ids(alloc.State(), calls[k..]) == Ids(old(alloc.State()), calls)
    {
      ghost var before := alloc.State();
      var id := alloc.GenNewId(calls[k].kind, calls[k].now);
      assert calls[k..][1..] == calls[k + 1..];
      assert Ids(before, calls[k..]) == [id] + Ids(alloc.State(), calls[k + 1..]);
      ids := ids + [id];
    }
  }

  /* What an id says about the call it was issued for. */
  predicate Tells(id: nat, group: word, index: word, start: word, c: Call) {
    && (id == 0 <==> !Takes(c) || c.now < start)
    && (id != 0 ==>
          && GetAllocatorType(id) == c.kind && GetSrvGroupId(id) == group && GetSrvIndex(id) == index
          && GetGenTime(id) == (c.now - start) % 0x800_0000)
  }

  lemma {:induction false} IdsTell(a: Alloc, calls: seq<Call>, i: nat)
    requires Ready(a) && 0 < a.groupId <= 2047 && a.index <= 7 && i < |calls|
    ensures Tells(Ids(a, calls)[i], a.groupId, a.index, a.startTime, calls[i])
    decreases i
  {
    hide GenId, Tells;
    GenIdKeeps(a, calls[0]);
    if i == 0 {
    } else {
      IdsTell(GenId(a, calls[0].kind, calls[0].now).0, calls[1..], i - 1);
    }
  }

  lemma GenIdKeeps(a: Alloc, c: Call)
    requires Ready(a) && 0 < a.groupId <= 2047 && a.index <= 7
    ensures var (a', id) := GenId(a, c.kind, c.now);
            && Ready(a') && a' == a.(seqNo := a'.seqNo) && Tells(id, a.groupId, a.index, a.startTime, c)
  {
    hide GetAllocatorType, GetSrvGroupId, GetSrvIndex, GetGenTime, GetSeq, Pack;
    IdMeaning(a, c.kind, c.now);
  }

  lemma {:induction false} NoIdsBeforeInit(a: Alloc, calls: seq<Call>, i: nat)
    requires !a.isInit && i < |calls|
    ensures Ids(a, calls)[i] == 0
  {
    if i == 0 {
    } else {
      NoIdsBeforeInit(a, calls[1..], i - 1);
    }
  }

  /** A whole life: a new allocator, one init, any calls.  Nothing is issued unless init succeeds; every id
      then tells its type, server and second; and in an orderly run all of them are distinct. */
  method InitAndGenerate(group: word, index: word, start: word, isGlobal: bool, now: word, calls: seq<Call>)
    returns (ok: bool, ids: seq<nat>)
    ensures ok <==> GoodServer(group, index, isGlobal) && 0 < start < now
    ensures |ids| == |calls|
    ensures !ok ==> forall i :: 0 <= i < |calls| ==> ids[i] == 0
    ensures ok ==> forall i :: 0 <= i < |calls| ==> Tells(ids[i], group, index, start, calls[i])
    ensures ok && Orderly(start, calls) ==>
              forall i, j :: 0 <= i < j < |calls| && Takes(calls[i]) && Takes(calls[j]) ==> ids[i] != ids[j]
  {
    hide Ids, Tells, Orderly, Takes;
    var alloc := new IdAllocator();
    ok := alloc.Init(group, index, start, isGlobal, now);
    ghost var a := alloc.State();
    ids := Generate(alloc, calls);
    forall i | 0 <= i < |calls|
      ensures !ok ==> ids[i] == 0
      ensures ok ==> Tells(ids[i], group, index, start, calls[i])
    {
      if ok {
        IdsTell(a, calls, i);
      } else {
        NoIdsBeforeInit(a, calls, i);
      }
    }
    if ok && Orderly(start, calls) {
      forall i, j | 0 <= i < j < |calls| && Takes(calls[i]) && Takes(calls[j])
        ensures ids[i] != ids[j]
      {
        IdsAreUnique(a, calls, i, j);
      }
    }
  }
}
