/** Encoding a section in chunks, whose results arrive in any order. */
module HexEncoder {
  import opened Bytes
  import opened HexDump

  datatype Task = Task(index: nat, size: nat)

  datatype Piece = Piece(index: nat, text: string)

  /** The chunks from `i` on: all of `size` bytes, but the last, which takes what is left. */
  function Chunks(i: nat, n: nat, size: nat): seq<Task>
    requires size > 0
    decreases if i < n then n - i else 0
  {
    if i >= n then []
    else [Task(i, if i + size > n then n - i else size)] + Chunks(i + size, n, size)
  }

  lemma ChunksStep(done: seq<Task>, i: nat, n: nat, size: nat)
    requires i < n && size > 0
    ensures var t := Task(i, if i + size > n then n - i else size);
      done + Chunks(i, n, size) == done + [t] + if i + size < n then Chunks(i + size, n, size) else []
  {
  }

  function PieceOf(address: nat, data: seq<Byte>, t: Task): Piece {
    Piece(t.index, Dump((address + t.index) % TWO64, Mid(data, t.index, t.size)))
  }

  function Pieces(address: nat, data: seq<Byte>, tasks: seq<Task>): (r: seq<Piece>)
    ensures |r| == |tasks| && forall i | 0 <= i < |r| :: r[i] == PieceOf(address, data, tasks[i])
  {
    if tasks == [] then [] else [PieceOf(address, data, tasks[0])] + Pieces(address, data, tasks[1..])
  }

  // ---------------------------------------------------------------------------------------------
  // Sorting
  // ---------------------------------------------------------------------------------------------

  function Insert(p: Piece, ps: seq<Piece>): (r: seq<Piece>)
    ensures |r| == |ps| + 1
  {
    if ps == [] || p.index < ps[0].index then [p] + ps else [ps[0]] + Insert(p, ps[1..])
  }

  /** By index. */
  function Sorted(ps: seq<Piece>): (r: seq<Piece>)
    ensures |r| == |ps|
  {
    if ps == [] then [] else Insert(ps[0], Sorted(ps[1..]))
  }

  ghost predicate Ascends(ps: seq<Piece>) {
    forall i, j | 0 <= i < j < |ps| :: ps[i].index < ps[j].index
  }

  ghost predicate Distinct(ps: seq<Piece>) {
    forall i, j | 0 <= i < j < |ps| :: ps[i].index != ps[j].index
  }

  lemma {:induction false} InsertHolds(p: Piece, ps: seq<Piece>)
    ensures forall q :: q in Insert(p, ps) <==> q == p || q in ps
  {
    if ps != [] && p.index >= ps[0].index {
      InsertHolds(p, ps[1..]);
      assert ps == [ps[0]] + ps[1..];
    }
  }

  lemma {:induction false} InsertAscends(p: Piece, ps: seq<Piece>)
    requires Ascends(ps) && forall q | q in ps :: q.index != p.index
    ensures Ascends(Insert(p, ps))
  {
    if ps != [] && p.index >= ps[0].index {
      RestHolds(ps);
      InsertAscends(p, ps[1..]);
      InsertHolds(p, ps[1..]);
      assert ps[0] in ps && ps == [ps[0]] + ps[1..];
      PutFirst(ps[0], Insert(p, ps[1..]), ps[1..], p);
    } else {
      assert forall j | 0 <= j < |ps| :: ps[j] in ps;
    }
  }

  lemma PutFirst(first: Piece, r: seq<Piece>, rest: seq<Piece>, p: Piece)
    requires Ascends(r) && first.index < p.index && Ascends([first] + rest)
    requires forall q | q in r :: q == p || q in rest
    ensures Ascends([first] + r)
  {
    var all := [first] + rest;
    forall j | 0 <= j < |r| ensures first.index < r[j].index {
      assert r[j] in r;
      if r[j] != p {
        var k :| 0 <= k < |rest| && rest[k] == r[j];
        assert all[k + 1] == rest[k] && all[0] == first;
      }
    }
  }

  lemma {:induction false} SortedKeeps(ps: seq<Piece>)
    ensures forall q :: q in Sorted(ps) <==> q in ps
    ensures Distinct(ps) ==> Ascends(Sorted(ps))
  {
    if ps != [] {
      hide Insert;
      var rest := ps[1..];
      SortedKeeps(rest);
      InsertHolds(ps[0], Sorted(rest));
      assert ps == [ps[0]] + rest;
      if Distinct(ps) {
        assert forall j | 0 <= j < |rest| :: rest[j] == ps[j + 1];
        InsertAscends(ps[0], Sorted(rest));
      }
    }
  }

  /** Two ascending lists of the same elements are the same list. */
  lemma {:induction false} AscendingIsUnique(a: seq<Piece>, b: seq<Piece>)
    requires Ascends(a) && Ascends(b) && forall q :: q in a <==> q in b
    ensures a == b
    decreases |a|
  {
    assert b != [] ==> b[0] in b;
    if a != [] {
      assert a[0] in a;
      assert a[0] in b && b[0] in a;
      FirstIsLeast(a, b[0]);
      FirstIsLeast(b, a[0]);
      RestHolds(a);
      RestHolds(b);
      AscendingIsUnique(a[1..], b[1..]);
    }
  }

  lemma FirstIsLeast(a: seq<Piece>, q: Piece)
    requires Ascends(a) && q in a
    ensures a[0].index <= q.index && (a[0].index == q.index ==> a[0] == q)
  {
  }

  lemma RestHolds(a: seq<Piece>)
    requires Ascends(a) && a != []
    ensures Ascends(a[1..]) && forall q :: q in a[1..] <==> q in a && q != a[0]
  {
    assert a == [a[0]] + a[1..];
    assert forall j | 0 <= j < |a[1..]| :: a[1..][j] == a[j + 1] && a[0].index < a[1..][j].index;
  }

  // ---------------------------------------------------------------------------------------------
  // Joining
  // ---------------------------------------------------------------------------------------------

  function Texts(ps: seq<Piece>): (r: seq<string>)
    ensures |r| == |ps|
  {
    if ps == [] then [] else [ps[0].text] + Texts(ps[1..])
  }

  lemma {:induction false} JoinAppend(a: seq<string>, b: seq<string>)
    requires a != [] && b != []
    ensures Join(a + b, "\n") == Join(a, "\n") + "\n" + Join(b, "\n")
  {
    if |a| == 1 {
      assert (a + b)[1..] == b;
    } else {
      JoinAppend(a[1..], b);
      assert (a + b)[1..] == a[1..] + b;
      Regroup(a[0], Join(a[1..], "\n"), Join(b, "\n"));
    }
  }

  lemma Regroup(a: string, b: string, c: string)
    ensures a + "\n" + (b + "\n" + c) == a + "\n" + b + "\n" + c
  {
  }

  /** The lengths of the texts, each with a line break behind it. */
  function Total(ps: seq<Piece>): nat {
    if ps == [] then 0 else |ps[0].text| + 1 + Total(ps[1..])
  }

  lemma {:induction false} TotalBoth(a: seq<Piece>, b: seq<Piece>)
    ensures Total(a + b) == Total(a) + Total(b)
  {
    if a == [] {
      assert a + b == b;
    } else {
      TotalBoth(a[1..], b);
      assert (a + b)[1..] == a[1..] + b;
    }
  }

  lemma {:induction false} TotalIsLong(ps: seq<Piece>)
    ensures Total(ps) >= |ps|
  {
    if ps != [] { TotalIsLong(ps[1..]); }
  }

  lemma {:induction false} TotalInsert(p: Piece, ps: seq<Piece>)
    ensures Total(Insert(p, ps)) == |p.text| + 1 + Total(ps)
  {
    if ps == [] || p.index < ps[0].index {
      assert ([p] + ps)[1..] == ps;
    } else {
      TotalInsert(p, ps[1..]);
      assert ([ps[0]] + Insert(p, ps[1..]))[1..] == Insert(p, ps[1..]);
    }
  }

  lemma {:induction false} TotalSorted(ps: seq<Piece>)
    ensures Total(Sorted(ps)) == Total(ps)
  {
    if ps != [] {
      TotalSorted(ps[1..]);
      TotalInsert(ps[0], Sorted(ps[1..]));
    }
  }

  lemma {:induction false} JoinedLength(ps: seq<Piece>)
    requires ps != []
    ensures |Join(Texts(ps), "\n")| + 1 == Total(ps)
  {
    assert Texts(ps)[1..] == Texts(ps[1..]);
    if |ps| > 1 { JoinedLength(ps[1..]); }
  }

  /** Data that is cut after whole rows is printed as the two parts are. */
  lemma {:induction false} LinesSplit(addr: nat, a: seq<Byte>, b: seq<Byte>)
    requires a != [] && |a| % 16 == 0 && b != [] && addr < TWO64
    ensures Lines(addr, a + b) == Lines(addr, a) + Lines((addr + |a|) % TWO64, b)
    decreases |a|
  {
    hide Line;
    var next := (addr + 16) % TWO64;
    assert (a + b)[..16] == a[..16];
    if |a| == 16 {
      assert (a + b)[16..] == b && a[..16] == a;
    } else {
      LinesSplit(next, a[16..], b);
      assert (a + b)[16..] == a[16..] + b;
      AddressAfter(addr, |a|);
    }
  }

  lemma AddressAfter(addr: nat, n: nat)
    requires n >= 16
    ensures ((addr + 16) % TWO64 + (n - 16)) % TWO64 == (addr + n) % TWO64
  {
  }

  lemma DumpSplit(addr: nat, a: seq<Byte>, b: seq<Byte>)
    requires a != [] && |a| % 16 == 0 && b != [] && addr < TWO64
    ensures Dump(addr, a + b) == Dump(addr, a) + "\n" + Dump((addr + |a|) % TWO64, b)
  {
    LinesSplit(addr, a, b);
    JoinAppend(Lines(addr, a), Lines((addr + |a|) % TWO64, b));
  }

  /** The texts of the chunks, joined, are the text of the data from there on. */
  lemma {:induction false} ChunksJoin(address: nat, data: seq<Byte>, i: nat, size: nat)
    requires address < TWO64 && i < |data| && size > 0 && size % 16 == 0
    ensures Chunks(i, |data|, size) != []
    ensures Join(Texts(Pieces(address, data, Chunks(i, |data|, size))), "\n")
      == Dump((address + i) % TWO64, data[i..])
    decreases |data| - i
  {
    hide Dump, Mid;
    var n := |data|;
    var tasks := Chunks(i, n, size);
    if i + size >= n {
      LastChunk(address, data, i, size);
    } else {
      ChunksJoin(address, data, i + size, size);
      var a, b := data[i..i + size], data[i + size..];
      DumpSplit((address + i) % TWO64, a, b);
      assert a + b == data[i..];
      AddressMoved(address, i, size);
      FirstChunk(address, data, i, size);
      assert Mid(data, i, size) == a by { MidInside(data, i, size); }
    }
  }

  lemma MidInside(data: seq<Byte>, i: nat, size: nat)
    requires i + size <= |data|
    ensures Mid(data, i, size) == data[i..i + size]
  {
  }

  lemma AddressMoved(address: nat, i: nat, size: nat)
    ensures ((address + i) % TWO64 + size) % TWO64 == (address + (i + size)) % TWO64
  {
  }

  lemma LastChunk(address: nat, data: seq<Byte>, i: nat, size: nat)
    requires i < |data| <= i + size
    ensures Chunks(i, |data|, size) != []
    ensures Join(Texts(Pieces(address, data, Chunks(i, |data|, size))), "\n")
      == Dump((address + i) % TWO64, data[i..])
  {
    hide Dump;
    assert Chunks(i, |data|, size) == [Task(i, |data| - i)];
    assert Mid(data, i, |data| - i) == data[i..];
    var ps := Pieces(address, data, [Task(i, |data| - i)]);
    assert Texts(ps) == [ps[0].text];
  }

  lemma FirstChunk(address: nat, data: seq<Byte>, i: nat, size: nat)
    requires size > 0 && i + size < |data|
    ensures Chunks(i + size, |data|, size) != []
    ensures Join(Texts(Pieces(address, data, Chunks(i, |data|, size))), "\n")
      == Dump((address + i) % TWO64, Mid(data, i, size)) + "\n"
         + Join(Texts(Pieces(address, data, Chunks(i + size, |data|, size))), "\n")
  {
    hide Dump, Mid;
    var tasks, rest := Chunks(i, |data|, size), Chunks(i + size, |data|, size);
    assert tasks[0] == Task(i, size) && tasks[1..] == rest;
    var texts := Texts(Pieces(address, data, tasks));
    assert Pieces(address, data, tasks)[1..] == Pieces(address, data, rest);
    assert texts[1..] == Texts(Pieces(address, data, rest));
  }

  // ---------------------------------------------------------------------------------------------
  // The chunks
  // ---------------------------------------------------------------------------------------------

  /** The chunks cover the data from `i` on, one after the other, without a gap and without overlap. */
  lemma {:induction false} ChunksPartition(data: seq<Byte>, i: nat, size: nat, k: nat)
    requires size > 0 && i < |data| && k < |Chunks(i, |data|, size)|
    ensures var t := Chunks(i, |data|, size)[k];
      && t.index == i + k * size && 0 < t.size <= size && t.index + t.size <= |data|
      && (k + 1 < |Chunks(i, |data|, size)| ==> t.size == size)
      && (k + 1 == |Chunks(i, |data|, size)| ==> t.index + t.size == |data|)
    decreases k
  {
    if k > 0 {
      ChunksPartition(data, i + size, size, k - 1);
      OneMore(k, size);
    }
  }

  lemma OneMore(k: nat, size: nat)
    requires k > 0
    ensures size + (k - 1) * size == k * size
  {
  }

  lemma ChunksAscend(address: nat, data: seq<Byte>, size: nat)
    requires size > 0
    ensures Ascends(Pieces(address, data, Chunks(0, |data|, size)))
  {
    var tasks := Chunks(0, |data|, size);
    forall j, k | 0 <= j < k < |tasks| ensures tasks[j].index < tasks[k].index {
      ChunksPartition(data, 0, size, j);
      ChunksPartition(data, 0, size, k);
      InOrder(j, k, size);
    }
  }

  lemma InOrder(j: nat, k: nat, size: nat)
    requires j < k && size > 0
    ensures j * size < k * size
  {
  }

  // ---------------------------------------------------------------------------------------------
  // The encoder
  // ---------------------------------------------------------------------------------------------

  class AddrHexAsciiEncoder {
    const address: nat
    const data: seq<Byte>
    var tasks: nat
    var results: seq<Piece>
    var result: string
    /** How often `finished` was emitted. */
    var finished: nat

    constructor (address: nat, data: seq<Byte>)
      ensures this.address == address && this.data == data
      ensures tasks == 0 && results == [] && result == "" && finished == 0
    {
      this.address, this.data := address, data;
      tasks, results, result, finished := 0, [], "", 0;
    }

    /** Queues the tasks; none of their results arrives before this returns. */
    method Start(threads: nat) returns (queue: seq<Task>)
      requires threads >= 1
      modifies this`tasks
      ensures queue == Chunks(0, |data|, threads * 1024) && tasks == |queue|
    {
      hide Chunks;
      tasks := 0;
      queue := [];
      assert [] + Chunks(0, |data|, threads * 1024) == Chunks(0, |data|, threads * 1024);
      NoChunks(data, threads * 1024);
      var size := threads * 1024;
      var i, n := 0, |data|;
      while i < n
        invariant size > 0 && tasks == |queue|
        invariant i < n ==> size == threads * 1024
        invariant Chunks(0, n, threads * 1024) == queue + if i < n then Chunks(i, n, threads * 1024) else []
        decreases if i < n then n - i else 0
      {
        if i + size > n {
          size := n - i;
        }
        tasks := tasks + 1;
        ChunksStep(queue, i, n, threads * 1024);
        queue := queue + [Task(i, size)];
        i := i + size;
      }
    }

    /** What a task does on its thread. */
    method RunTask(t: Task) returns (p: Piece)
      ensures p == PieceOf(address, data, t)
    {
      hide Dump, Mid;
      var text := AddrDataString((address + t.index) % TWO64, Mid(data, t.index, t.size));
      p := Piece(t.index, text);
    }

    method AddResult(p: Piece)
      modifies this`results, this`result, this`finished
      ensures if |old(results)| + 1 == tasks
        then results == Sorted(old(results) + [p]) && finished == old(finished) + 1
          && result == Join(Texts(results), "\n")
        else results == old(results) + [p] && finished == old(finished) && result == old(result)
    {
      results := results + [p];
      if |results| == tasks {
        results := Sorted(results);
        result := JoinLines(Texts(results));
        finished := finished + 1;
      }
    }
  }

  /** Every one of `n` tasks, each once. */
  ghost predicate IsOrder(order: seq<nat>, n: nat) {
    && |order| == n
    && (forall i | 0 <= i < n :: order[i] < n)
    && (forall i, j | 0 <= i < j < n :: order[i] != order[j])
    && (forall k: nat | k < n :: k in order)
  }

  /** The pieces that have arrived, when the first `k` of the order have. */
  function Arrived(all: seq<Piece>, order: seq<nat>, k: nat): (r: seq<Piece>)
    requires k <= |order| && forall i | 0 <= i < |order| :: order[i] < |all|
    ensures |r| == k && forall i | 0 <= i < k :: r[i] == all[order[i]]
  {
    if k == 0 then [] else Arrived(all, order, k - 1) + [all[order[k - 1]]]
  }

  lemma ArrivedSorts(all: seq<Piece>, order: seq<nat>)
    requires Ascends(all) && IsOrder(order, |all|)
    ensures Sorted(Arrived(all, order, |all|)) == all
  {
    hide Sorted;
    var ps := Arrived(all, order, |all|);
    assert Distinct(ps) by {
      forall i, j | 0 <= i < j < |ps| ensures ps[i].index != ps[j].index {
        assert order[i] != order[j];
      }
    }
    forall q ensures q in ps <==> q in all {
      if q in all {
        var k :| 0 <= k < |all| && all[k] == q;
        assert k in order;
        var i :| 0 <= i < |order| && order[i] == k;
        assert ps[i] == q;
      }
    }
    SortedKeeps(ps);
    AscendingIsUnique(Sorted(ps), all);
  }

  /**
   Starts the encoder and lets the results arrive in any order. `finished` is emitted once if fewer results
   were kept from before than there are tasks, and not at all otherwise: a fresh encoder reports the text
   of the whole data, and nothing when there is no data.
   */
  method Encode(encoder: AddrHexAsciiEncoder, threads: nat, order: seq<nat>) returns (queue: seq<Task>)
    requires threads >= 1 && encoder.address < TWO64
    requires IsOrder(order, |Chunks(0, |encoder.data|, threads * 1024)|)
    modifies encoder
    ensures queue == Chunks(0, |encoder.data|, threads * 1024) && (queue == [] <==> encoder.data == [])
    ensures |encoder.results| == |old(encoder.results)| + |queue|
    ensures encoder.finished == old(encoder.finished) + if |old(encoder.results)| < |queue| then 1 else 0
    ensures |old(encoder.results)| >= |queue| ==> encoder.result == old(encoder.result)
    ensures 0 < |old(encoder.results)| < |queue| ==>
      |encoder.result| + 1 >= Total(old(encoder.results)) + (|queue| - |old(encoder.results)|)
    ensures old(encoder.results) == [] && queue != [] ==>
      && encoder.result == Dump(encoder.address, encoder.data)
      && Total(encoder.results) == |encoder.result| + 1
  {
    hide *;
    SizeIsWhole(threads);
    queue := encoder.Start(threads);
    OrderIsInRange(order, |queue|);
    NoChunks(encoder.data, threads * 1024);
    Deliver(encoder, queue, order);
    ghost var all := Pieces(encoder.address, encoder.data, queue);
    ghost var kept := old(encoder.results);
    if |kept| < |queue| {
      JoinedLength(Sorted(kept + Arrived(all, order, |queue| - |kept|)));
      TotalSorted(kept + Arrived(all, order, |queue| - |kept|));
      TotalBoth(kept, Arrived(all, order, |queue| - |kept|));
      TotalIsLong(Arrived(all, order, |queue| - |kept|));
    }
    if kept == [] && encoder.data != [] {
      Assembled(encoder.address, encoder.data, threads * 1024, order);
      NothingKept(kept, Arrived(all, order, |queue|));
    }
  }

  lemma NothingKept(kept: seq<Piece>, arrived: seq<Piece>)
    requires kept == []
    ensures kept + arrived == arrived
  {
  }

  /**
   An encoder that has reported once keeps its results: started again it reports exactly when there are more
   chunks than the first time, and then never the text of the data.
   */
  method EncodeTwice(address: nat, data: seq<Byte>, threads: nat, order: seq<nat>, threads2: nat, order2: seq<nat>)
    returns (encoder: AddrHexAsciiEncoder, first: string)
    requires threads >= 1 && threads2 >= 1 && address < TWO64 && data != []
    requires IsOrder(order, |Chunks(0, |data|, threads * 1024)|)
    requires IsOrder(order2, |Chunks(0, |data|, threads2 * 1024)|)
    ensures first == Dump(address, data)
    ensures var more := |Chunks(0, |data|, threads * 1024)| < |Chunks(0, |data|, threads2 * 1024)|;
      && encoder.finished == (if more then 2 else 1)
      && (more <==> encoder.result != first)
  {
    hide Chunks, IsOrder, Dump, Total;
    encoder := new AddrHexAsciiEncoder(address, data);
    var _ := Encode(encoder, threads, order);
    first := encoder.result;
    var _ := Encode(encoder, threads2, order2);
  }

  /** However the pieces arrive, sorted and joined they are the text of the data. */
  lemma Assembled(address: nat, data: seq<Byte>, size: nat, order: seq<nat>)
    requires address < TWO64 && data != [] && size > 0 && size % 16 == 0
    requires IsOrder(order, |Chunks(0, |data|, size)|)
    ensures |order| == |Chunks(0, |data|, size)| && forall i | 0 <= i < |order| :: order[i] < |order|
    ensures var all := Pieces(address, data, Chunks(0, |data|, size));
      Texts(Sorted(Arrived(all, order, |order|))) != []
      && Join(Texts(Sorted(Arrived(all, order, |order|))), "\n") == Dump(address, data)
  {
    hide *;
    var tasks := Chunks(0, |data|, size);
    OrderIsInRange(order, |tasks|);
    ChunksAscend(address, data, size);
    ArrivedSorts(Pieces(address, data, tasks), order);
    ChunksJoin(address, data, 0, size);
    WholeData(address, data);
  }

  lemma SizeIsWhole(threads: nat)
    requires threads >= 1
    ensures threads * 1024 > 0 && (threads * 1024) % 16 == 0
  {
    assert threads * 1024 == 16 * (threads * 64);
  }

  lemma WholeData(address: nat, data: seq<Byte>)
    requires address < TWO64
    ensures (address + 0) % TWO64 == address && data[0..] == data
  {
  }

  /** Runs the tasks in the given order; the results that were kept from before count as well. */
  method Deliver(encoder: AddrHexAsciiEncoder, queue: seq<Task>, order: seq<nat>)
    requires encoder.tasks == |queue| == |order|
    requires forall i | 0 <= i < |order| :: order[i] < |queue|
    modifies encoder
    ensures |encoder.results| == |old(encoder.results)| + |queue|
    ensures encoder.finished == old(encoder.finished) + if |old(encoder.results)| < |queue| then 1 else 0
    ensures |old(encoder.results)| >= |queue| ==> encoder.result == old(encoder.result)
    ensures var all := Pieces(encoder.address, encoder.data, queue);
      var kept := old(encoder.results);
      |kept| < |queue| ==>
        && encoder.result == Join(Texts(Sorted(kept + Arrived(all, order, |queue| - |kept|))), "\n")
        && (kept == [] ==> encoder.results == Sorted(kept + Arrived(all, order, |queue|)))
  {
    hide Sorted, Texts, Join, PieceOf, Pieces;
    ghost var all := Pieces(encoder.address, encoder.data, queue);
    ghost var kept, n := encoder.results, |queue|;
    for k := 0 to |order|
      invariant encoder.tasks == n && |encoder.results| == |kept| + k
      invariant |kept| + k < n || n <= |kept| ==>
        && encoder.results == kept + Arrived(all, order, k)
        && encoder.finished == old(encoder.finished) && encoder.result == old(encoder.result)
      invariant |kept| < n <= |kept| + k ==>
        && encoder.finished == old(encoder.finished) + 1
        && encoder.result == Join(Texts(Sorted(kept + Arrived(all, order, n - |kept|))), "\n")
      invariant kept == [] && k == n > 0 ==> encoder.results == Sorted(kept + Arrived(all, order, n))
    {
      var p := encoder.RunTask(queue[order[k]]);
      assert p == all[order[k]];
      assert kept + Arrived(all, order, k) + [p] == kept + Arrived(all, order, k + 1);
      encoder.AddResult(p);
    }
  }

  lemma OrderIsInRange(order: seq<nat>, n: nat)
    requires IsOrder(order, n)
    ensures |order| == n && forall i | 0 <= i < n :: order[i] < n
  {
  }

  lemma NoChunks(data: seq<Byte>, size: nat)
    requires size > 0
    ensures Chunks(0, |data|, size) == [] <==> data == []
  {
  }
}
