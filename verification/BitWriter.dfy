/**
 The bit accumulator of jchuff.c and jcphuff.c, writing through a destination
 buffer that the application may refuse to empty.
 */
module BitWriter {
  import opened BitString
  import opened ByteStream

  /** Why a call did not finish. */
  datatype Failure = MissingCode | BadCoefficient | BadTable | CodeOverflow | CantSuspend

  datatype Outcome = Done | Suspended | Error(why: Failure) {
    /** The data cannot be coded. */
    predicate Uncodable() {
      this == Error(MissingCode) || this == Error(BadCoefficient)
    }
  }

  // ----- machine arithmetic

  const TWO_24 := 0x100_0000
  const TWO_32 := 0x1_0000_0000

  /** Bitwise or. */
  function Or(a: nat, b: nat): (r: nat)
    decreases a + b
  {
    if a == 0 then b
    else if b == 0 then a
    else 2 * Or(a / 2, b / 2) + if a % 2 == 1 || b % 2 == 1 then 1 else 0
  }

  /** Where the operands have no bit in common, or adds. */
  lemma {:induction false} OrAdds(a: nat, b: nat, k: nat)
    requires a < Pow2(k) && b % Pow2(k) == 0
    ensures Or(a, b) == a + b
    decreases k
  {
    if k > 0 && a > 0 && b > 0 {
      ModHalf(b, Pow2(k - 1));
      OrAdds(a / 2, b / 2, k - 1);
    }
  }

  /** The valid bits are left-justified in the low 24 bits of the accumulator. */
  predicate Holds(buffer: nat, bits: nat, pending: Bits) {
    bits == |pending| <= 24 && buffer % TWO_24 == Val(pending) * Pow2(24 - |pending|)
  }

  /** Dividing the modulus out of a remainder. */
  lemma ModOfMod(x: nat, a: nat, b: nat)
    requires a > 0 && b > 0
    ensures x % (a * b) % a == x % a
  {
    var q, r := x / (a * b), x % (a * b);
    assert a * b > 0 by { MulMonotone(1, b, a); }
    assert x == q * (a * b) + r;
    var q', r' := r / a, r % a;
    assert r == q' * a + r';
    SplitProduct(q, a, b, q', r');
    DivModUnique(x, a, q * b + q', r');
  }

  lemma SplitProduct(q: nat, a: nat, b: nat, q': nat, r: nat)
    ensures q * (a * b) + (q' * a + r) == (q * b + q') * a + r
  {
    assert q * (a * b) == (q * b) * a;
  }

  lemma Distribute(v: nat, s: nat, c: nat, p: nat)
    ensures v * (s * p) + c * p == (v * s + c) * p
  {
    assert v * (s * p) == v * s * p;
  }

  /** Aligning incoming bits and merging them in. */
  lemma MergeIncoming(buffer: nat, pending: Bits, code: int, size: nat)
    requires Holds(buffer, |pending|, pending) && |pending| <= 7 && 1 <= size <= 16
    ensures var n := |pending| + size;
            Holds(Or(code % Pow2(size) * Pow2(24 - n), buffer), n, pending + BitsOf(code, size))
  {
    hide Pow2, Val, BitsOf, Or;
    var m, n := |pending|, |pending| + size;
    var c, p := code % Pow2(size), Pow2(24 - n);
    ValBitsOf(code, size);
    ValConcat(pending, BitsOf(code, size));
    Pow2Add(size, 24 - n);
    assert Pow2(24 - m) == Pow2(size) * p;
    ProductBelow(c, Pow2(size), p);
    LowBitsClear(buffer, pending);
    OrAdds(c * p, buffer, 24 - m);
    Distribute(Val(pending), Pow2(size), c, p);
    MergedResidue(buffer, c * p, Val(pending) * Pow2(24 - m), pending + BitsOf(code, size));
  }

  lemma ProductBelow(c: nat, s: nat, p: nat)
    requires c < s
    ensures p > 0 ==> c * p < s * p
  {
    MulMonotone(c + 1, s, p);
    assert (c + 1) * p == c * p + p;
  }

  lemma LowBitsClear(buffer: nat, pending: Bits)
    requires Holds(buffer, |pending|, pending)
    ensures buffer % Pow2(24 - |pending|) == 0
  {
    var k := 24 - |pending|;
    Pow2Constants();
    Pow2Add(k, |pending|);
    ModOfMod(buffer, Pow2(k), Pow2(|pending|));
    DivModUnique(Val(pending) * Pow2(k), Pow2(k), Val(pending), 0);
  }

  lemma MergedResidue(buffer: nat, x: nat, r: nat, all: Bits)
    requires buffer % TWO_24 == r && |all| <= 24 && r + x == Val(all) * Pow2(24 - |all|)
    ensures (x + buffer) % TWO_24 == r + x
  {
    hide Val, Pow2;
    Pow2Constants();
    Pow2Add(|all|, 24 - |all|);
    ProductBelow(Val(all), Pow2(|all|), Pow2(24 - |all|));
    DivModUnique(x + buffer, TWO_24, buffer / TWO_24, r + x);
  }

  /** The accumulator split at its top eight bits. */
  lemma SplitAccumulator(buffer: nat, pending: Bits)
    requires Holds(buffer, |pending|, pending) && |pending| >= 8
    ensures var hi, low := Val(pending[..8]), Val(pending[8..]) * Pow2(24 - |pending|);
            buffer % TWO_24 == hi * 0x1_0000 + low && hi < 0x100 && low < 0x1_0000
  {
    hide Val;
    var k := |pending|;
    var hi, lo, p := Val(pending[..8]), Val(pending[8..]), Pow2(24 - k);
    assert pending == pending[..8] + pending[8..];
    ValConcat(pending[..8], pending[8..]);
    Pow2Constants();
    Pow2Add(k - 8, 24 - k);
    ProductBelow(lo, Pow2(k - 8), p);
    Distribute(hi, Pow2(k - 8), lo, p);
  }

  /** The top eight bits of the accumulator are the oldest pending bits. */
  lemma TakeOctet(buffer: nat, pending: Bits)
    requires Holds(buffer, |pending|, pending) && |pending| >= 8
    ensures buffer / 0x1_0000 % 0x100 == ByteOf(pending[..8])
    ensures Holds(buffer * 0x100 % TWO_32, |pending| - 8, pending[8..])
  {
    hide Val, Pow2;
    SplitAccumulator(buffer, pending);
    var hi, lo, p := Val(pending[..8]), Val(pending[8..]), Pow2(24 - |pending|);
    ShiftOut(buffer, hi, lo * p);
    Pow2Constants();
    Pow2Add(8, 24 - |pending|);
    assert |pending[8..]| == |pending| - 8 && 24 - (|pending| - 8) == 8 + (24 - |pending|);
    RaiseByOctet(lo, p);
  }

  lemma RaiseByOctet(lo: nat, p: nat)
    ensures lo * (0x100 * p) == lo * p * 0x100
  {
  }

  lemma ShiftOut(buffer: nat, hi: nat, low: nat)
    requires buffer % TWO_24 == hi * 0x1_0000 + low && hi < 0x100 && low < 0x1_0000
    ensures buffer / 0x1_0000 % 0x100 == hi
    ensures buffer * 0x100 % TWO_32 % TWO_24 == low * 0x100
  {
    var q := buffer / TWO_24;
    assert buffer == q * TWO_24 + hi * 0x1_0000 + low;
    DivModUnique(buffer, 0x1_0000, q * 0x100 + hi, low);
    DivModUnique(q * 0x100 + hi, 0x100, q, hi);
    ModOfMod(buffer * 0x100, TWO_24, 0x100);
    DivModUnique(buffer * 0x100, TWO_24, q * 0x100 + hi, low * 0x100);
  }

  // ----- the destination

  /**
   What happens between coder and destination: a call of the entropy coder begins, or the
   application, asked to empty a full buffer, provides one of some size or, size 0, refuses.
   */
  datatype Event = Called | Answered(size: nat)

  function Events(answers: seq<nat>): (e: seq<Event>)
    ensures |e| == |answers|
  {
    seq(|answers|, i requires 0 <= i < |answers| => Answered(answers[i]))
  }

  /** No buffer was refused. */
  predicate Open(answers: seq<nat>) {
    forall i :: 0 <= i < |answers| ==> answers[i] > 0
  }

  /** The last buffer was refused, and no other one. */
  predicate Shut(answers: seq<nat>) {
    answers != [] && answers[|answers| - 1] == 0 && Open(answers[..|answers| - 1])
  }

  /** Some buffer was taken. */
  predicate Taken(answers: seq<nat>) {
    answers != [] && answers[0] > 0
  }

  function Total(answers: seq<nat>): nat {
    if answers == [] then 0 else Total(answers[..|answers| - 1]) + answers[|answers| - 1]
  }

  /** The space provided before the last answer. */
  function Asked(answers: seq<nat>): nat {
    if answers == [] then 0 else Total(answers[..|answers| - 1])
  }

  /** The answers are those planned, as far as the plan goes; `left` is the rest of the plan. */
  predicate Foretold(plan: seq<nat>, answers: seq<nat>, left: seq<nat>) {
    if |plan| <= |answers| then plan <= answers && left == [] else answers + left == plan
  }

  lemma OneMoreAnswer(log: seq<Event>, plan: seq<nat>, answers: seq<nat>, left: seq<nat>, n: nat)
    requires Open(answers) && Foretold(plan, answers, left) && (left == [] || n == left[0])
    ensures log + Events(answers) + [Answered(n)] == log + Events(answers + [n])
    ensures Foretold(plan, answers + [n], if left == [] then [] else left[1..])
    ensures if n > 0 then Open(answers + [n]) else Shut(answers + [n])
    ensures Total(answers + [n]) == Total(answers) + n
    ensures n > 0 ==> Taken(answers + [n])
    ensures Asked(answers + [n]) == Total(answers)
              && Taken(answers + [n]) == if answers == [] then n > 0 else Taken(answers)
  {
    assert (answers + [n])[..|answers|] == answers;
    assert Events(answers + [n]) == Events(answers) + [Answered(n)];
  }

  /** The last thing that happened since was a refusal. */
  predicate EndsRefused(since: seq<Event>, log: seq<Event>) {
    since < log && log[|log| - 1] == Answered(0)
  }

  lemma ShutEndsRefused(since: seq<Event>, log: seq<Event>, answers: seq<nat>)
    requires since <= log && Shut(answers)
    ensures EndsRefused(since, log + [Called] + Events(answers))
  {
  }

  lemma SomeAnswer(answers: seq<nat>, n: nat)
    ensures answers + [n] != [] && Total([]) == 0 && !Taken([])
  {
  }

  /**
   The data destination: bytes the application has taken, and the buffer being
   filled. next and free are its public fields, which the coder updates only when
   an MCU is complete.
   */
  class Destination {
    var sent: seq<byte>
    var buffer: array<byte>
    var next: nat
    var free: nat
    var plan: seq<nat>           // the answers the application has decided on beforehand
    ghost var log: seq<Event>

    ghost predicate Valid()
      reads `buffer, `next, `free
    {
      next + free == buffer.Length && free > 0
    }

    /** The byte stream so far. */
    ghost function Stream(): seq<byte>
      requires Valid()
      reads `sent, `buffer, `next, `free, buffer
    {
      sent + buffer[..next]
    }

    constructor (size: nat, plan: seq<nat>)
      requires size > 0
      ensures Valid() && Stream() == [] && fresh(buffer) && this.plan == plan && free == size && log == []
    {
      sent, next, free := [], 0, size;
      buffer := new byte[size](_ => 0);
      this.plan, log := plan, [];
    }

    /** What the application will answer next, for reasons of its own: the plan, or else anything. */
    method Decide() returns (size: nat)
      modifies `plan
      ensures plan == if old(plan) == [] then [] else old(plan)[1..]
      ensures old(plan) != [] ==> size == old(plan)[0]
    {
      size := *;
      if plan != [] {
        size, plan := plan[0], plan[1..];
      }
    }

    /**
     Called with a full buffer. The application either takes the whole buffer and
     provides one to continue with, or refuses.
     */
    method EmptyOutputBuffer() returns (ok: bool, ghost size: nat)
      requires Valid()
      modifies this
      ensures buffer == old(buffer) || fresh(buffer)
      ensures ok <==> size > 0
      ensures plan == if old(plan) == [] then [] else old(plan)[1..]
      ensures old(plan) != [] ==> size == old(plan)[0]
      ensures log == old(log) + [Answered(size)]
      ensures !ok ==> unchanged(`sent, `buffer, `next, `free)
      ensures ok ==> Valid() && next == 0 && free == size && sent == old(sent + buffer[..])
    {
      var answer := Decide();
      ok, size := answer > 0, answer;
      if ok {
        sent := sent + buffer[..];
        var another: bool := *;
        if another || answer != buffer.Length {
          buffer := new byte[answer](_ => 0);
        }
        next, free := 0, buffer.Length;
      }
      log := log + [Answered(answer)];
    }

    /** Between calls the application may drain what has been committed, and provide an empty buffer. */
    method Drain(size: nat)
      requires Valid() && size > 0
      modifies `sent, `buffer, `next, `free
      ensures Valid() && Stream() == old(Stream()) && (buffer == old(buffer) || fresh(buffer)) && free == size
    {
      sent := sent + buffer[..next];
      buffer := new byte[size](_ => 0);
      next, free := 0, size;
    }
  }

  // ----- the working state

  /** The coder's local copy of the output position and the bit accumulator. */
  class Writer {
    const dest: Destination
    var next: nat
    var free: nat
    var putBuffer: nat
    var putBits: nat
    var lastDc: seq<int>              // last DC coefficient of each component
    ghost var pending: Bits           // the bits held in putBuffer
    ghost var answers: seq<nat>       // what the application has answered since the state was loaded
    ghost var tried: seq<byte>        // the stream with everything that has been put into buffers
    ghost const start: seq<byte>      // stream, free space, log and plan when the state was loaded
    ghost const room: nat
    ghost const log: seq<Event>
    ghost const plan: seq<nat>

    ghost predicate BufferOk()
      reads `next, `free, `answers, `tried, dest, dest.buffer
    {
      && dest.Valid()
      && next + free == dest.buffer.Length && free > 0
      && dest.next <= next
      && Open(answers) && tried == dest.sent + dest.buffer[..next]
      && |tried| + free == |start| + room + Total(answers)
    }

    /** The log says what was answered. */
    ghost predicate Noted()
      reads `answers, dest`log, dest`plan
    {
      dest.log == log + Events(answers) && Foretold(plan, answers, dest.plan)
    }

    /**
     What the destination has committed: the beginning of what was tried, and nothing new
     unless a buffer was taken. No buffer is handed in before it is full.
     */
    ghost predicate Kept()
      reads `answers, `tried, dest, dest.buffer
    {
      && dest.Valid() && Noted()
      && start <= dest.Stream() <= tried
      && (if Taken(answers) then |start| < |dest.Stream()| else dest.Stream() == start)
      && (answers != [] ==> |start| + room + Asked(answers) <= |tried|)
    }

    /** The application has refused a buffer. */
    ghost predicate Refused()
      reads `answers, dest`log, dest`plan
    {
      Noted() && Shut(answers)
    }

    ghost predicate Valid()
      reads `next, `free, `putBuffer, `putBits, `pending, `answers, `tried, dest, dest.buffer
    {
      && BufferOk() && Kept()
      && Holds(putBuffer, putBits, pending)
      && |pending| <= 7
    }

    ghost function State(): Sink
      reads `pending, `tried
    {
      Sink(tried, pending)
    }

    constructor (dest: Destination, putBuffer: nat, putBits: nat, ghost pending: Bits, lastDc: seq<int>)
      requires dest.Valid() && Holds(putBuffer, putBits, pending) && |pending| <= 7
      ensures Valid() && this.dest == dest && start == dest.Stream() && answers == []
      ensures room == dest.free && log == dest.log && plan == dest.plan
      ensures State() == Sink(dest.Stream(), pending) && this.lastDc == lastDc
    {
      this.dest := dest;
      this.next, this.free := dest.next, dest.free;
      this.putBuffer, this.putBits, this.pending := putBuffer, putBits, pending;
      this.lastDc := lastDc;
      this.start, this.room, this.log, this.plan := dest.Stream(), dest.free, dest.log, dest.plan;
      this.answers, this.tried := [], dest.Stream();
    }

    /** emit_byte, with dump_buffer: false when the output must suspend. */
    method EmitByte(val: byte) returns (ok: bool)
      requires BufferOk() && Kept()
      modifies `next, `free, `answers, `tried, dest, dest.buffer
      ensures dest.buffer == old(dest.buffer) || fresh(dest.buffer)
      ensures Kept() && tried == old(tried) + [val]
      ensures if ok then BufferOk() else Refused()
    {
      hide Events, Foretold, Total, Asked, Taken, Open, Shut;
      dest.buffer[next] := val;
      next := next + 1;
      free := free - 1;
      tried := tried + [val];
      ok := true;
      assert tried == dest.sent + dest.buffer[..next];
      if free == 0 {
        ok := DumpBuffer();
      }
    }

    /** dump_buffer */
    method DumpBuffer() returns (ok: bool)
      requires dest.Valid() && Kept() && Open(answers)
      requires next == dest.buffer.Length && dest.next <= next && tried == dest.sent + dest.buffer[..next]
      requires |tried| == |start| + room + Total(answers) && |start| < |tried|
      modifies `next, `free, `answers, dest
      ensures dest.buffer == old(dest.buffer) || fresh(dest.buffer)
      ensures Kept() && (if ok then BufferOk() else Refused())
    {
      hide Events, Foretold, Total, Asked, Taken, Open, Shut;
      ghost var size, left := 0, dest.plan;
      ok, size := dest.EmptyOutputBuffer();
      OneMoreAnswer(log, plan, answers, left, size);
      SomeAnswer(answers, size);
      answers := answers + [size];
      if ok {
        next, free := dest.next, dest.free;
        assert dest.Stream() == tried;
      }
    }

    /** A data byte, followed by a stuffed zero if it is 0xFF. */
    method EmitStuffed(c: byte) returns (ok: bool)
      requires BufferOk() && Kept()
      modifies `next, `free, `answers, `tried, dest, dest.buffer
      ensures dest.buffer == old(dest.buffer) || fresh(dest.buffer)
      ensures Kept()
      ensures if ok then BufferOk() && tried == old(tried) + Stuffed(c)
              else Refused() && tried <= old(tried) + Stuffed(c)
    {
      hide BufferOk, Kept, Refused;
      ok := EmitByte(c);
      if ok && c == 0xFF {
        ok := EmitByte(0);
      }
    }

    /**
     emit_bits: Done when the bits have joined the stream, Error when the caller
     used a symbol without a code (size 0), Suspended when the application refused a
     buffer; what was tried until then is the beginning of what was to be written.
     */
    method EmitBits(code: int, size: nat) returns (r: Outcome)
      requires Valid() && size <= 16
      modifies this, dest, dest.buffer
      ensures dest.buffer == old(dest.buffer) || fresh(dest.buffer)
      ensures lastDc == old(lastDc) && Kept()
      ensures r.Error? <==> size == 0
      ensures r.Error? ==> r.why == MissingCode && Open(answers)
      ensures r.Suspended? ==> Refused() && tried <= Put(old(State()), BitsOf(code, size)).bytes
      ensures r.Done? ==> Valid() && State() == Put(old(State()), BitsOf(code, size))
    {
      hide Pow2, Val, BitsOf, Or, Pack, Residue, Holds, Kept, Refused, Total, Asked, Open, Stuffed;
      if size == 0 {
        return Error(MissingCode);
      }
      HeldBits(putBuffer, putBits, pending);
      var bits: nat := putBits + size;
      var buf: nat := Or(code % Pow2(size) * Pow2(24 - bits), putBuffer);
      ghost var all := pending + BitsOf(code, size);
      MergeIncoming(putBuffer, pending, code, size);
      ghost var rest, before := all, tried;
      while bits >= 8
        invariant Holds(buf, bits, rest)
        invariant BufferOk() && Kept()
        invariant dest.buffer == old(dest.buffer) || fresh(dest.buffer)
        invariant tried + Pack(rest) == before + Pack(all) && Residue(rest) == Residue(all)
        invariant lastDc == old(lastDc)
        decreases bits
      {
        HeldBits(buf, bits, rest);
        TakeOctet(buf, rest);
        PackStep(tried, rest);
        var ok := EmitStuffed(buf / 0x1_0000 % 0x100);
        if !ok {
          return Suspended;
        }
        buf := buf * 0x100 % TWO_32;
        bits := bits - 8;
        rest := rest[8..];
      }
      HeldBits(buf, bits, rest);
      PackRest(tried, rest);
      putBuffer, putBits, pending := buf, bits, rest;
      return Done;
    }

    /** flush_bits: pad to a byte boundary with ones and reset the accumulator. */
    method FlushBits() returns (r: Outcome)
      requires Valid()
      modifies this, dest, dest.buffer
      ensures dest.buffer == old(dest.buffer) || fresh(dest.buffer)
      ensures lastDc == old(lastDc)
      ensures Kept() && !r.Error?
      ensures r.Suspended? ==> Refused() && tried <= Flush(old(State())).bytes
      ensures r.Done? ==> Valid() && State() == Flush(old(State()))
    {
      hide Pow2, Val, BitsOf, Pack, Residue, Holds, Kept, Refused, BufferOk;
      AllOnes();
      r := EmitBits(0x7F, 7);
      if r.Done? {
        putBuffer, putBits, pending := 0, 0, [];
        HoldsNothing();
      }
    }

    /** emit_restart: flush, write the marker, and reset the DC predictions. */
    method EmitRestart(num: nat) returns (r: Outcome)
      requires Valid() && num < 8
      modifies this, dest, dest.buffer
      ensures dest.buffer == old(dest.buffer) || fresh(dest.buffer)
      ensures Kept() && !r.Error?
      ensures r.Suspended? ==> Refused() && tried <= PutItem(old(State()), Restart(num)).bytes
      ensures r.Done? ==> Valid() && State() == PutItem(old(State()), Restart(num))
      ensures r.Done? ==> lastDc == seq(|old(lastDc)|, _ => 0)
    {
      hide Pack, Residue, Holds, Kept, Refused, BufferOk;
      r := FlushBits();
      if !r.Done? {
        return;
      }
      var ok := EmitMarker(num);
      if !ok {
        return Suspended;
      }
      ClearDc();
      return Done;
    }

    /** Re-initialize DC predictions to 0. */
    method ClearDc()
      modifies `lastDc
      ensures lastDc == seq(|old(lastDc)|, _ => 0)
    {
      for ci := 0 to |lastDc|
        invariant |lastDc| == |old(lastDc)| && forall c :: 0 <= c < ci ==> lastDc[c] == 0
      {
        lastDc := lastDc[ci := 0];
      }
    }

    method EmitMarker(num: nat) returns (ok: bool)
      requires Valid() && pending == [] && num < 8
      modifies `next, `free, `answers, `tried, dest, dest.buffer
      ensures dest.buffer == old(dest.buffer) || fresh(dest.buffer)
      ensures Kept()
      ensures if ok then Valid() && tried == old(tried) + RestartCode(num)
              else Refused() && tried <= old(tried) + RestartCode(num)
    {
      hide Kept, Refused, BufferOk;
      ok := EmitByte(0xFF);
      if ok {
        ok := EmitByte(RST0 + num);
      }
    }
  }

  /** How a call ends that a writer was loaded for. */
  lemma RefusedCall(w: Writer, since: seq<Event>)
    requires w.log == since + [Called]
    ensures w.Refused() ==> EndsRefused(since, w.dest.log)
    ensures w.Noted() ==> since <= w.dest.log
  {
    if w.Refused() {
      assert Events(w.answers)[|w.answers| - 1] == Answered(0);
    }
  }

  lemma HoldsNothing()
    ensures Holds(0, 0, [])
  {
  }

  lemma HeldBits(buffer: nat, bits: nat, pending: Bits)
    requires Holds(buffer, bits, pending)
    ensures bits == |pending| <= 24
  {
  }

  lemma PackStep(out: seq<byte>, rest: Bits)
    requires |rest| >= 8
    ensures out + Pack(rest) == out + Stuffed(ByteOf(rest[..8])) + Pack(rest[8..])
    ensures Residue(rest) == Residue(rest[8..])
  {
  }

  lemma PackRest(out: seq<byte>, rest: Bits)
    requires |rest| < 8
    ensures out + Pack(rest) == out && Residue(rest) == rest
  {
  }

  lemma AllOnes()
    ensures BitsOf(0x7F, 7) == Ones(7)
  {
    ValOnes(7);
    ValBitsOf(0x7F, 7);
    ValInjective(BitsOf(0x7F, 7), Ones(7));
  }
}
