/*
 * The index update of fifo_write and fifo_read in hw4/fifo.c exactly as written:
 * the index is compared with the depth BEFORE it is incremented, so it runs
 * 0, 1, ..., depth and only then goes back to 0.  At depth, the slot
 * ch*depth + depth is the first slot of the next channel's row, or lies past the
 * matrix for the last channel.  Memory is a map from slot address to tuple so that
 * such an address can be written at all; the matrix is addresses 0 to n*d - 1.
 */
module FifoAsWritten {
  import opened Text
  import Fifo

  type Tuple = Fifo.ReducerTupleIn

  datatype State = State(n: nat, d: nat, wr: seq<int>, rd: seq<int>, sz: seq<int>, mem: map<int, Tuple>)

  predicate Shaped(s: State) {
    |s.wr| == s.n && |s.rd| == s.n && |s.sz| == s.n
  }

  /* The outcome of a read: empty channel, a tuple, or an address with no slot. */
  datatype ReadOutcome = Empty | Got(t: Tuple) | OutsideMatrix(addr: int)

  /* Addresses 0 to k - 1, each holding the zero tuple. */
  function Zeroed(k: nat): (m: map<int, Tuple>)
    ensures forall a :: a in m <==> 0 <= a < k
  {
    if k == 0 then map[] else Zeroed(k - 1)[k - 1 := Fifo.ZERO_TUPLE]
  }

  /* Fifo(n, d): all indices and sizes 0, the matrix zero-filled. */
  function Init(n: nat, d: nat): (s: State)
    ensures Shaped(s) && s.n == n && s.d == d
  {
    State(n, d, seq(n, _ => 0), seq(n, _ => 0), seq(n, _ => 0), Zeroed(n * d))
  }

  /* `if (index++ == depth) index = 0`: the old value is compared, the new one kept. */
  function Advance(i: int, d: int): int {
    if i == d then 0 else i + 1
  }

  /* fifo_write as written. */
  function Write(s: State, ch: nat, v: Tuple): (r: (State, int))
    requires Shaped(s) && ch < s.n && Fifo.WellSized(v)
    ensures Shaped(r.0) && r.0.n == s.n && r.0.d == s.d && r.0.rd == s.rd
    ensures r.1 == 0 <==> s.sz[ch] < s.d
    ensures r.1 == -1 ==> r.0 == s
    ensures r.1 == 0 ==> var addr := ch * s.d + s.wr[ch];
            && r.0.mem == s.mem[addr := Fifo.Copy(v)]
            && r.0.sz[ch] == s.sz[ch] + 1
            && (s.wr[ch] < s.d ==> r.0.wr[ch] == s.wr[ch] + 1)
    ensures forall c :: 0 <= c < s.n && c != ch ==> r.0.wr[c] == s.wr[c] && r.0.sz[c] == s.sz[c]
  {
    if s.sz[ch] < s.d then
      (s.(mem := s.mem[ch * s.d + s.wr[ch] := Fifo.Copy(v)],
          sz := s.sz[ch := s.sz[ch] + 1],
          wr := s.wr[ch := Advance(s.wr[ch], s.d)]), 0)
    else (s, -1)
  }

  /* fifo_read as written.  Every slot holds the zero tuple or a copy, and a copy of
     either is itself (Fifo.CopyIdempotent), so the slot is returned as it is. */
  function Read(s: State, ch: nat): (r: (State, ReadOutcome))
    requires Shaped(s) && ch < s.n
    ensures Shaped(r.0) && r.0.n == s.n && r.0.d == s.d && r.0.wr == s.wr && r.0.mem == s.mem
    ensures r.1 == Empty <==> s.sz[ch] <= 0
    ensures r.1 == Empty ==> r.0 == s
    ensures r.1 != Empty ==> r.0.sz[ch] == s.sz[ch] - 1 && (s.rd[ch] < s.d ==> r.0.rd[ch] == s.rd[ch] + 1)
    ensures r.1.Got? <==> s.sz[ch] > 0 && ch * s.d + s.rd[ch] in s.mem
    ensures r.1.Got? ==> r.1.t == s.mem[ch * s.d + s.rd[ch]]
    ensures r.1.OutsideMatrix? ==> r.1.addr == ch * s.d + s.rd[ch] && r.1.addr !in s.mem
    ensures forall c :: 0 <= c < s.n && c != ch ==> r.0.rd[c] == s.rd[c] && r.0.sz[c] == s.sz[c]
  {
    if s.sz[ch] > 0 then
      var addr := ch * s.d + s.rd[ch];
      var s' := s.(sz := s.sz[ch := s.sz[ch] - 1], rd := s.rd[ch := Advance(s.rd[ch], s.d)]);
      if addr in s.mem then (s', Got(s.mem[addr])) else (s', OutsideMatrix(addr))
    else (s, Empty)
  }

  /* The index does reach the depth: one step from depth - 1 gives depth, a slot
     outside the channel's row, where the corrected Fifo.Next gives 0. */
  lemma AdvanceReachesDepth(d: int)
    requires 0 < d
    ensures Advance(d - 1, d) == d && Fifo.Next(d - 1, d) == 0
  {
  }

  /* Two writes to a channel whose write index is one short of the depth and that
     has room for both: the first takes the channel's last slot and leaves the index
     AT the depth; the second is accepted too and stores at ch*d + d, which is slot 0
     of channel ch + 1.  If that channel's oldest tuple sits there, its next read
     returns the tuple written to channel ch. */
  lemma NeighbourOverwritten(s: State, ch: nat, v: Tuple, w: Tuple)
    requires Shaped(s) && ch + 1 < s.n && 0 < s.d && Fifo.WellSized(v) && Fifo.WellSized(w)
    requires s.wr[ch] == s.d - 1 && s.sz[ch] + 2 <= s.d
    requires s.rd[ch + 1] == 0 && 0 < s.sz[ch + 1]
    ensures var (s1, r1) := Write(s, ch, v);
            var (s2, r2) := Write(s1, ch, w);
            && r1 == 0 && r2 == 0 && s1.wr[ch] == s.d
            && Read(s2, ch + 1).1 == Got(Fifo.Copy(w))
  {
    var r1 := Write(s, ch, v);
    assert r1.1 == 0 && r1.0.wr[ch] == s.d && r1.0.sz[ch] < s.d;
    var r2 := Write(r1.0, ch, w);
    RowEnd(ch, s.d);
    assert r2.1 == 0 && ch * s.d + r1.0.wr[ch] == (ch + 1) * s.d + r2.0.rd[ch + 1];
    assert r2.0.sz[ch + 1] > 0;
  }

  /* One past a row's last slot is the next row's first. */
  lemma RowEnd(ch: int, d: int)
    ensures ch * d + d == (ch + 1) * d
  {
  }

  /* Such a state is reached from a fresh FIFO of two channels of depth 2: write to
     channel 1, write to channel 0, read from channel 0. */
  lemma NeighbourOverwrittenReachable(x: Tuple, a: Tuple)
    requires Fifo.WellSized(x) && Fifo.WellSized(a)
    ensures var s := Read(Write(Write(Init(2, 2), 1, x).0, 0, a).0, 0).0;
            && Shaped(s) && s.n == 2 && s.d == 2
            && s.wr[0] == 1 && s.sz[0] == 0 && s.rd[1] == 0 && s.sz[1] == 1
  {
  }

  /* For the last channel the same second write is accepted and stores at n*d, past
     the matrix. */
  lemma WritePastMatrix(s: State, v: Tuple, w: Tuple)
    requires Shaped(s) && 0 < s.n && 0 < s.d && Fifo.WellSized(v) && Fifo.WellSized(w)
    requires s.wr[s.n - 1] == s.d - 1 && s.sz[s.n - 1] + 2 <= s.d
    requires forall a :: a in s.mem ==> 0 <= a < s.n * s.d
    ensures var (s1, r1) := Write(s, s.n - 1, v);
            var (s2, r2) := Write(s1, s.n - 1, w);
            && r1 == 0 && r2 == 0
            && s.n * s.d !in s.mem && s.n * s.d in s2.mem
  {
    var last, top := s.n - 1, s.n * s.d;
    RowEnd(last, s.d);
    var r1 := Write(s, last, v);
    assert r1.1 == 0 && r1.0.wr[last] == s.d && r1.0.sz[last] < s.d;
    var r2 := Write(r1.0, last, w);
    assert r2.1 == 0 && last * s.d + r1.0.wr[last] == top;
  }
}
