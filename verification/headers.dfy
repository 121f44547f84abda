/** The header view handed to callers: a single name/value pair with a
    case-insensitive name test, and a fixed 32-slot array with a length and
    a cursor that iterates over the filled prefix. Names and values are
    byte strings; the borrowing done by the Rust code is not modelled. */
module HeaderView {
  import opened Bounded
  import opened Wrappers

  /** Number of slots in a header array. */
  const CAPACITY: nat := 32

  datatype Header = Header(name: seq<byte>, value: seq<byte>)

  /** `Header::default()`: both strings empty. */
  const EMPTY_HEADER: Header := Header([], [])

  // ---------------------------------------------------------------------
  // Case-insensitive name comparison

  predicate IsAsciiUpper(b: byte)
  {
    'A' as byte <= b <= 'Z' as byte
  }

  /** `u8::to_ascii_lowercase`: only 'A'..'Z' move. */
  function AsciiLower(b: byte): byte
  {
    if IsAsciiUpper(b) then b + 32 else b
  }

  /** The reference meaning of `eq_ignore_ascii_case`: same length and
      byte-wise equal after ASCII lower-casing. */
  predicate EqIgnoreAsciiCase(a: seq<byte>, b: seq<byte>)
  {
    |a| == |b| && forall i | 0 <= i < |a| :: AsciiLower(a[i]) == AsciiLower(b[i])
  }

  /** `Header::is`: the length test, then the byte-pair scan of
      `eq_ignore_ascii_case`, stopping at the first mismatch. */
  method Is(h: Header, v: seq<byte>) returns (r: bool)
    ensures r <==> EqIgnoreAsciiCase(h.name, v)
  {
    if |h.name| != |v| {
      return false;
    }
    var i := 0;
    while i < |v|
      invariant 0 <= i <= |v|
      invariant forall j | 0 <= j < i :: AsciiLower(h.name[j]) == AsciiLower(v[j])
    {
      if AsciiLower(h.name[i]) != AsciiLower(v[i]) {
        return false;
      }
      i := i + 1;
    }
    return true;
  }

  /** Two bytes match ignoring ASCII case iff they are equal or are the two
      cases of one ASCII letter; a byte outside ASCII matches only itself. */
  lemma ByteMatch(a: byte, b: byte)
    ensures AsciiLower(a) == AsciiLower(b) <==>
      (|| a == b
       || (IsAsciiUpper(a) && b == a + 32)
       || (IsAsciiUpper(b) && a == b + 32))
    ensures a >= 0x80 ==> (AsciiLower(a) == AsciiLower(b) <==> a == b)
  {
  }

  /** The name test is an equivalence relation. */
  lemma EqIgnoreAsciiCaseIsEquivalence(a: seq<byte>, b: seq<byte>, c: seq<byte>)
    ensures EqIgnoreAsciiCase(a, a)
    ensures EqIgnoreAsciiCase(a, b) <==> EqIgnoreAsciiCase(b, a)
    ensures EqIgnoreAsciiCase(a, b) && EqIgnoreAsciiCase(b, c) ==> EqIgnoreAsciiCase(a, c)
  {
  }

  /** "Content-Type" matches "content-type" and not "Content Type". */
  lemma ContentTypeExample()
    ensures EqIgnoreAsciiCase(Bytes("Content-Type"), Bytes("content-type"))
    ensures !EqIgnoreAsciiCase(Bytes("Content-Type"), Bytes("Content Type"))
  {
    var a, b, c := Bytes("Content-Type"), Bytes("content-type"), Bytes("Content Type");
    assert AsciiLower(a[7]) != AsciiLower(c[7]);
  }

  /** ASCII text as bytes, for examples. */
  function Bytes(s: string): (b: seq<byte>)
    requires forall i | 0 <= i < |s| :: s[i] as int < 0x80
    ensures |b| == |s| && forall i | 0 <= i < |s| :: b[i] as int == s[i] as int
  {
    seq(|s|, i requires 0 <= i < |s| => s[i] as int as byte)
  }

  // ---------------------------------------------------------------------
  // The fixed-capacity header array and its iterator

  /** `slots` is the 32-element array, `len` the number filled, `next` the
      iterator's cursor. */
  datatype Headers = Headers(slots: seq<Header>, len: nat, next: nat) {
    predicate Valid()
    {
      |slots| == CAPACITY && next <= len <= CAPACITY
    }

    /** What the iterator has still to yield. */
    function Remaining(): seq<Header>
      requires Valid()
    {
      slots[next..len]
    }
  }

  /** `Headers::new()`: every slot empty, nothing filled, cursor at 0. */
  function NewHeaders(): (h: Headers)
    ensures h.Valid() && h.len == 0 && h.next == 0
    ensures forall i | 0 <= i < CAPACITY :: h.slots[i] == EMPTY_HEADER
    ensures h.Remaining() == []
  {
    Headers(seq(CAPACITY, _ => EMPTY_HEADER), 0, 0)
  }

  /** `Iterator::next`: hands out the first remaining header, or `None` once
      the cursor has reached `len`, in which case nothing changes. */
  function Next(h: Headers): (r: (Headers, Option<Header>))
    requires h.Valid()
    ensures r.0.Valid()
    ensures r.0.slots == h.slots && r.0.len == h.len
    ensures r.1 == None <==> h.Remaining() == []
    ensures r.1 == None ==> r.0 == h
    ensures r.1 != None ==> [r.1.value] + r.0.Remaining() == h.Remaining()
  {
    if h.next == h.len then (h, None)
    else
      var h' := h.(next := h.next + 1);
      assert h.Remaining() == [h.slots[h.next]] + h'.Remaining();
      (h', Some(h.slots[h'.next - 1]))
  }

  /** Everything the iterator yields before its first `None`. */
  function Collect(h: Headers): (items: seq<Header>)
    requires h.Valid()
    ensures items == h.slots[h.next..h.len]
    decreases h.len - h.next
  {
    var (h', item) := Next(h);
    match item
    case None => []
    case Some(x) => [x] + Collect(h')
  }

  /** The state after `n` calls of `next`. */
  function Advance(h: Headers, n: nat): (h': Headers)
    requires h.Valid()
    ensures h'.Valid() && h'.slots == h.slots && h'.len == h.len
    decreases n
  {
    if n == 0 then h else Advance(Next(h).0, n - 1)
  }

  /** The iterator is fused: once it has yielded `len - next` items, every
      later call returns `None`. */
  lemma {:induction false} ExhaustedStaysNone(h: Headers, n: nat)
    requires h.Valid() && n >= h.len - h.next
    ensures Next(Advance(h, n)).1 == None
    ensures Advance(h, n).next == h.len
    decreases n
  {
    if n > 0 {
      ExhaustedStaysNone(Next(h).0, n - 1);
    }
  }
}
