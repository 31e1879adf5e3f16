/**
 Whole runs: for every sequence of operations that keeps to the rule about
 switching between reading and writing, and every way the file delivers its bytes,
 the buffered stream gives what the unbuffered reference allows.
 */
module StreamRuns {
  import opened MachineWords
  import opened StreamSpec
  import opened Stream

  datatype Op =
    | GetOp
    | ReadOp(size: nat, num: nat)
    | UngetOp(c: Byte)
    | PutOp(c: Byte)
    | WriteOp(buffer: seq<Byte>, size: nat, num: nat)
    | FlushOp
    | TellOp
    | SeekOp(offset: int, whence: Whence)

  datatype Out = Char(c: int) | Data(bytes: seq<Byte>, n: nat) | Count(n: nat) | Place(p: int) | Moved(ok: bool) | Done

  /** Whether the last operations were reads, writes, or leave the choice: after a
      seek, after a flush, and after a read that hit the end of the file. */
  datatype Mode = Either | Reading | Writing

  /** The rule of section 7.21.5.3 of ISO/IEC 9899:2011. A seek out of range is left
      out while reading, since it drops what was read ahead. */
  predicate Legal(r: Ref, mode: Mode, op: Op) {
    match op
    case GetOp => mode != Writing
    case ReadOp(_, _) => mode != Writing
    case UngetOp(_) => mode != Writing
    case PutOp(_) => mode != Reading
    case WriteOp(buffer, size, num) => mode != Reading && Product(size, num) <= |buffer|
    case FlushOp => mode != Reading
    case TellOp => true
    case SeekOp(offset, whence) => mode != Reading || Target(r, offset, whence) >= 0
  }

  /** What the reference may answer. Only a second push-back may be refused. */
  ghost predicate Allowed(r: Ref, op: Op, out: Out) {
    match op
    case GetOp => out == Char(First(r.Bytes(1)))
    case ReadOp(size, num) =>
      var b := r.Bytes(Product(size, num));
      out.Data? && out.bytes == b && Counts(size, num, |b|, out.n)
    case UngetOp(c) => out == Char(c) || (out == Char(EOF) && r.pushed != [])
    case PutOp(_) => out == Done
    case WriteOp(_, size, num) => out.Count? && Counts(size, num, Product(size, num), out.n)
    case FlushOp => out == Done
    case TellOp => out == Place(r.Tell())
    case SeekOp(offset, whence) => out == Moved(Target(r, offset, whence) >= 0)
  }

  function Next(r: Ref, op: Op, out: Out): Ref {
    match op
    case GetOp => r.Read(1)
    case ReadOp(size, num) => r.Read(Product(size, num))
    case UngetOp(c) => if out == Char(EOF) then r else r.(pushed := [c] + r.pushed)
    case PutOp(c) => r.Write([c])
    case WriteOp(buffer, size, num) =>
      if Product(size, num) <= |buffer| then r.Write(buffer[..Product(size, num)]) else r
    case FlushOp => r
    case TellOp => r
    case SeekOp(offset, whence) =>
      if Target(r, offset, whence) >= 0 then Ref(r.contents, Target(r, offset, whence), []) else r
  }

  function NextMode(mode: Mode, op: Op, out: Out): Mode {
    match op
    case GetOp => if out == Char(EOF) then Either else Reading
    case ReadOp(size, num) =>
      if out.Data? && |out.bytes| < Product(size, num) then Either else if Product(size, num) == 0 then mode else Reading
    case UngetOp(_) => if out == Char(EOF) then mode else Reading
    case PutOp(_) => Writing
    case WriteOp(_, size, num) => if Product(size, num) == 0 then mode else Writing
    case FlushOp => Either
    case TellOp => mode
    case SeekOp(_, _) => Either
  }

  /** The reference may answer the first operations with outs and end up in r'. */
  ghost predicate Runs(r: Ref, mode: Mode, ops: seq<Op>, outs: seq<Out>, r': Ref, mode': Mode)
    decreases |outs|
  {
    if outs == [] then r == r' && mode == mode'
    else
      && ops != [] && Legal(r, mode, ops[0]) && Allowed(r, ops[0], outs[0])
      && Runs(Next(r, ops[0], outs[0]), NextMode(mode, ops[0], outs[0]), ops[1..], outs[1..], r', mode')
  }

  lemma {:induction false} RunsMore(r: Ref, mode: Mode, ops: seq<Op>, outs: seq<Out>, r': Ref, mode': Mode, out: Out)
    requires Runs(r, mode, ops, outs, r', mode') && |outs| < |ops|
    requires Legal(r', mode', ops[|outs|]) && Allowed(r', ops[|outs|], out)
    ensures Runs(r, mode, ops, outs + [out], Next(r', ops[|outs|], out), NextMode(mode', ops[|outs|], out))
    decreases |outs|
  {
    if outs == [] {
      assert (outs + [out])[1..] == [];
    } else {
      RunsMore(Next(r, ops[0], outs[0]), NextMode(mode, ops[0], outs[0]), ops[1..], outs[1..], r', mode', out);
      assert (outs + [out])[1..] == outs[1..] + [out];
    }
  }
}
