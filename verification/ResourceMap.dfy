/**
 A resource map: an ascending list of free runs kept in a fixed number of slots. The
 functions are the operations as coded, in 32-bit arithmetic.
 */
module ResourceMap {
  import opened MachineWords

  // unsigned addition and subtraction wrap around
  function Add(a: Word, b: Word): Word {
    if a + b < W then a + b else a + b - W
  }

  function Sub(a: Word, b: Word): Word {
    if a >= b then a - b else a - b + W
  }

  datatype Entry = Entry(offset: Word, size: Word) {
    function Top(): Word {
      Add(offset, size)
    }
  }

  /** The free runs, the number of slots for them, and the space lost to fragmentation. */
  datatype Map = Map(entries: seq<Entry>, slots: nat, lost: Word)

  function Insert(s: seq<Entry>, i: nat, e: Entry): seq<Entry>
    requires i <= |s|
  {
    s[..i] + [e] + s[i..]
  }

  function Delete(s: seq<Entry>, i: nat): seq<Entry>
    requires i < |s|
  {
    s[..i] + s[i + 1..]
  }

  // ---------- allocation ----------

  function FirstFit(s: seq<Entry>, size: Word, i: nat): (k: nat)
    requires i <= |s|
    ensures i <= k <= |s|
    decreases |s| - i
  {
    if i == |s| || s[i].size >= size then i else FirstFit(s, size, i + 1)
  }

  function Take(m: Map, i: nat, size: Word): Map
    requires i < |m.entries|
  {
    var e := m.entries[i];
    if e.size > size then
      m.(entries := m.entries[i := Entry(Add(e.offset, size), e.size - size)])
    else
      m.(entries := Delete(m.entries, i))
  }

  function Alloc(m: Map, size: Word): (Map, Word) {
    var i := FirstFit(m.entries, size, 0);
    if i == |m.entries| then (m, 0) else (Take(m, i, size), m.entries[i].offset)
  }

  // ---------- reservation ----------

  /** The first run that starts beyond the offset or holds it. */
  function Holder(s: seq<Entry>, offset: Word, i: nat): (k: nat)
    requires i <= |s|
    ensures i <= k <= |s|
    decreases |s| - i
  {
    if i == |s| || s[i].offset > offset || s[i].Top() > offset then i else Holder(s, offset, i + 1)
  }

  function Split(m: Map, i: nat, offset: Word, rtop: Word, top: Word, size: Word): Map
    requires i < |m.entries|
  {
    var e := m.entries[i];
    var above := Entry(rtop, Sub(top, rtop));
    if |m.entries| == m.slots then
      Map(m.entries[i := above], m.slots, Add(m.lost, Sub(Sub(e.size, above.size), size)))
    else
      m.(entries := Insert(m.entries[i := above], i, Entry(e.offset, Sub(offset, e.offset))))
  }

  function Cut(m: Map, i: nat, offset: Word, size: Word): (Map, bool)
    requires i < |m.entries|
  {
    var e := m.entries[i];
    var top, rtop := e.Top(), Add(offset, size);
    if rtop > top then
      (m, false)
    else if offset == e.offset then
      var rest := Entry(Add(e.offset, size), Sub(e.size, size));
      (m.(entries := if rest.size == 0 then Delete(m.entries, i) else m.entries[i := rest]), true)
    else if rtop == top then
      (m.(entries := m.entries[i := Entry(e.offset, Sub(e.size, size))]), true)
    else
      (Split(m, i, offset, rtop, top, size), true)
  }

  function Reserve(m: Map, offset: Word, size: Word): (Map, bool) {
    var i := Holder(m.entries, offset, 0);
    if i == |m.entries| || m.entries[i].offset > offset then (m, false) else Cut(m, i, offset, size)
  }

  function Status(m: Map, offset: Word, size: Word): int {
    var i := Holder(m.entries, offset, 0);
    if i == |m.entries| then
      1
    else if m.entries[i].offset > offset then
      if Add(offset, size) > m.entries[i].offset then -1 else 1
    else
      if Add(offset, size) < m.entries[i].Top() then 0 else -1
  }

  // ---------- aligned allocation ----------

  function Gap(offset: Word, align: Word): Word
    requires align > 0
  {
    if offset % align == 0 then 0 else align - offset % align
  }

  function FirstAligned(s: seq<Entry>, size: Word, align: Word, i: nat): (k: nat)
    requires i <= |s| && align > 0
    ensures i <= k <= |s|
    decreases |s| - i
  {
    if i == |s| || s[i].size >= Add(size, Gap(s[i].offset, align)) then i else FirstAligned(s, size, align, i + 1)
  }

  function AllocAlign(m: Map, size: Word, align: Word): (Map, Word)
    requires align > 0
  {
    var i := FirstAligned(m.entries, size, align, 0);
    if i == |m.entries| then
      (m, 0)
    else
      var offset := m.entries[i].offset;
      var idx := Add(offset, Gap(offset, align));
      var (n, ok) := Reserve(m, idx, size);
      (n, if ok then idx else 0)
  }

  // ---------- release ----------

  /** The first run the range abuts or comes before. */
  function Neighbour(s: seq<Entry>, offset: Word, size: Word, i: nat): (k: nat)
    requires i <= |s|
    ensures i <= k <= |s|
    decreases |s| - i
  {
    if i == |s| || s[i].Top() == offset || Add(offset, size) == s[i].offset || offset < s[i].offset then
      i
    else
      Neighbour(s, offset, size, i + 1)
  }

  /** Adds the range to the end of a run, and joins the next run if it now abuts. */
  function Grow(s: seq<Entry>, i: nat, size: Word): seq<Entry>
    requires i < |s|
  {
    var grown := Entry(s[i].offset, Add(s[i].size, size));
    if i + 1 < |s| && grown.Top() == s[i + 1].offset then
      Delete(s[i := Entry(grown.offset, Add(grown.size, s[i + 1].size))], i + 1)
    else
      s[i := grown]
  }

  function Place(m: Map, i: nat, e: Entry): Map
    requires i <= |m.entries|
  {
    if |m.entries| == m.slots then
      m.(lost := Add(m.lost, e.size))
    else
      m.(entries := Insert(m.entries, i, e))
  }

  function Free(m: Map, offset: Word, size: Word): Map {
    var s := m.entries;
    var i := Neighbour(s, offset, size, 0);
    if i < |s| && s[i].Top() == offset then
      m.(entries := Grow(s, i, size))
    else if i < |s| && Add(offset, size) == s[i].offset then
      m.(entries := s[i := Entry(offset, Add(s[i].size, size))])
    else
      Place(m, i, Entry(offset, size))
  }
}
