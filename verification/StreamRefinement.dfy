/**
 The buffered stream refines the unbuffered reference, step by step and over whole
 sequences of operations.
 */
module StreamRefinement {
  import opened MachineWords
  import opened StreamSpec
  import opened Stream
  import opened StreamRuns

  ghost predicate Answered(r0: Ref, ops: seq<Op>, outs: seq<Out>, r: Ref, mode: Mode) {
    Runs(r0, Either, ops, outs, r, mode)
  }

  /** The flags of the stream fit the mode of the reference. */
  ghost predicate Fits(f: File, mode: Mode)
    reads f, f.base
  {
    f.Ok() && f.Room() && (mode != Writing ==> !f.wr) && (mode != Reading ==> f.St().Writable())
  }

  /** One operation of the buffered stream is one step of the reference. */
  method Step(f: File, op: Op, mode: Mode) returns (out: Out)
    requires Fits(f, mode) && Legal(f.View(), mode, op)
    modifies f, f.base
    ensures Fits(f, NextMode(mode, op, out)) && (f.base == old(f.base) || fresh(f.base))
    ensures Allowed(old(f.View()), op, out) && f.View() == Next(old(f.View()), op, out)
  {
    match op
    case GetOp => out := StepGet(f, mode);
    case ReadOp(size, num) => out := StepRead(f, size, num, mode);
    case UngetOp(c) =>
      var r := f.UngetC(c);
      out := Char(r);
    case PutOp(c) =>
      f.PutC(c);
      out := Done;
    case WriteOp(buffer, size, num) => out := StepWrite(f, buffer, size, num, mode);
    case FlushOp =>
      f.FFlush();
      out := Done;
    case TellOp =>
      var p := f.FTell();
      out := Place(p);
    case SeekOp(offset, whence) =>
      var ok := f.FSeek(offset, whence);
      out := Moved(ok);
  }

  method StepGet(f: File, mode: Mode) returns (out: Out)
    requires Fits(f, mode) && mode != Writing
    modifies f, f.base
    ensures Fits(f, NextMode(mode, GetOp, out)) && (f.base == old(f.base) || fresh(f.base))
    ensures Allowed(old(f.View()), GetOp, out) && f.View() == Next(old(f.View()), GetOp, out)
  {
    var c := f.GetC();
    out := Char(c);
  }

  method StepRead(f: File, size: nat, num: nat, mode: Mode) returns (out: Out)
    requires Fits(f, mode) && mode != Writing
    modifies f, f.base
    ensures Fits(f, NextMode(mode, ReadOp(size, num), out)) && (f.base == old(f.base) || fresh(f.base))
    ensures Allowed(old(f.View()), ReadOp(size, num), out) && f.View() == Next(old(f.View()), ReadOp(size, num), out)
  {
    var bytes, n := f.FRead(size, num);
    out := Data(bytes, n);
  }

  method StepWrite(f: File, buffer: seq<Byte>, size: nat, num: nat, mode: Mode) returns (out: Out)
    requires Fits(f, mode) && mode != Reading && Product(size, num) <= |buffer|
    modifies f, f.base
    ensures Fits(f, NextMode(mode, WriteOp(buffer, size, num), out)) && (f.base == old(f.base) || fresh(f.base))
    ensures Allowed(old(f.View()), WriteOp(buffer, size, num), out)
    ensures f.View() == Next(old(f.View()), WriteOp(buffer, size, num), out)
  {
    var n := f.FWrite(buffer, size, num);
    out := Count(n);
  }

  method IsLegal(f: File, mode: Mode, op: Op) returns (legal: bool)
    requires Fits(f, mode)
    ensures legal == Legal(f.View(), mode, op)
  {
    var p := f.FTell();
    match op
    case GetOp => legal := mode != Writing;
    case ReadOp(_, _) => legal := mode != Writing;
    case UngetOp(_) => legal := mode != Writing;
    case PutOp(_) => legal := mode != Reading;
    case WriteOp(buffer, size, num) => legal := mode != Reading && Product(size, num) <= |buffer|;
    case FlushOp => legal := mode != Reading;
    case TellOp => legal := true;
    case SeekOp(offset, whence) =>
      var target := match whence
        case Set => offset
        case Cur => p + offset
        case End => |f.data| + offset;
      legal := mode != Reading || target >= 0;
  }

  /** Opens a file holding contents, with any buffer size, and performs the
      operations up to the first that breaks the rule. The answers are what the
      unbuffered reference gives, and after a final flush so is the file. */
  method Execute(contents: seq<Byte>, size: nat, ops: seq<Op>) returns (outs: seq<Out>, data: seq<Byte>, mode: Mode, ghost r: Ref)
    ensures |outs| <= |ops| && Runs(Ref(contents, 0, []), Either, ops, outs, r, mode)
    ensures |outs| < |ops| ==> !Legal(r, mode, ops[|outs|])
    ensures data == r.contents
  {
    var f := new File(contents, size);
    ghost var r0 := Ref(contents, 0, []);
    outs, mode := [], Either;
    while |outs| < |ops|
      invariant |outs| <= |ops| && Fits(f, mode) && fresh(f) && fresh(f.base)
      invariant Answered(r0, ops, outs, f.View(), mode)
      decreases |ops| - |outs|
    {
      var k := |outs|;
      var legal := IsLegal(f, mode, ops[k]);
      if !legal {
        break;
      }
      ghost var r1 := f.View();
      var out := Step(f, ops[k], mode);
      RunsMore(r0, Either, ops, outs, r1, mode, out);
      outs, mode := outs + [out], NextMode(mode, ops[k], out);
    }
    r := f.View();
    f.FFlush();
    data := f.data;
  }
}
