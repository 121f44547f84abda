/** Call identity: the packed token naming one in-flight exchange, and the
    copyable key (`CallRef`) used to route readiness events back to it.
    The packed word is a 32-bit value holding the call id in its high half
    and the connection id in its low half; the second field is always the
    largest `usize`. */
module CallIdentity {
  import opened Bounded
  import opened Bits

  /** The second field every constructor in the Rust code fills in. */
  const RESERVED: usize := USIZE_MAX as usize

  datatype Call = Call(packed: u32, reserved: usize)

  datatype CallRef = CallRef(packed: u32, reserved: usize)

  /** `(call_id << 16) | con_id` on the two ids widened to 32 bits: the
      call id fills the high half and the connection id the low half. */
  function Pack(conId: u16, callId: u16): (w: u32)
    ensures w as int == callId as int * 0x1_0000 + conId as int
  {
    Pow2Of16();
    OrDisjointIsAdd(callId as nat, conId as nat, 16);
    Or(Shl(callId as nat, 16), conId as nat) as u32
  }

  /** Builds a live identity from a connection slot id and a call id. */
  function NewCall(conId: u16, callId: u16): (c: Call)
    ensures c.packed as int == callId as int * 0x1_0000 + conId as int
    ensures c.reserved as int == USIZE_MAX
  {
    Call(Pack(conId, callId), RESERVED)
  }

  /** The sentinel that marks a finished or never-started call. */
  function EmptyCall(): (c: Call)
    ensures CallId(c) == 0xFFFF && ConId(c) == 0xFFFF && c.reserved == RESERVED
  {
    Call(0xFFFF_FFFF, RESERVED)
  }

  /** Full structural comparison with the sentinel (the Rust code derives
      `PartialEq` on both fields). */
  predicate IsEmpty(c: Call)
    ensures IsEmpty(c) <==> CallId(c) == 0xFFFF && ConId(c) == 0xFFFF && c.reserved == RESERVED
  {
    c == EmptyCall()
  }

  /** `((packed >> 16) & 0xFFFF) as u16`: the high half. */
  function CallId(c: Call): (id: u16)
    ensures id as int == c.packed as int / 0x1_0000
  {
    var hi := Shr(c.packed as nat, 16);
    HighHalf(c.packed);
    And(hi, 0xFFFF) as u16
  }

  /** The high half of a 32-bit word, shifted down, passes the 16-bit mask
      unchanged. */
  lemma HighHalf(w: u32)
    ensures Shr(w as nat, 16) == w as int / 0x1_0000 < 0x1_0000
    ensures And(Shr(w as nat, 16), 0xFFFF) == Shr(w as nat, 16)
  {
    var hi := Shr(w as nat, 16);
    ShrSixteen(w as nat);
    HalfBound(w as nat);
    MaskSixteen(hi);
  }

  lemma HalfBound(w: nat)
    requires w < 0x1_0000_0000
    ensures w / 0x1_0000 < 0x1_0000
  {
  }

  /** `(packed & 0xFFFF) as u16`: the low half. */
  function ConId(c: Call): (id: u16)
    ensures id as int == c.packed as int % 0x1_0000
  {
    MaskSixteen(c.packed as nat);
    And(c.packed as nat, 0xFFFF) as u16
  }

  /** The value the Rust code's in-place `invalidate` leaves behind. */
  function Invalidate(c: Call): (c': Call)
    ensures IsEmpty(c')
    ensures CallId(c') == 0xFFFF && ConId(c') == 0xFFFF
  {
    EmptyCall()
  }

  /** The routing key of a call: it matches the call and keeps its second
      field. */
  function GetRef(c: Call): (r: CallRef)
    ensures IsRef(c, r) && r.reserved == c.reserved
  {
    CallRef(c.packed, c.reserved)
  }

  /** Matches on the packed word only; the second field is not compared. */
  predicate IsRef(c: Call, r: CallRef)
    ensures IsRef(c, r) <==> CallRef(c.packed, r.reserved) == r
  {
    c.packed == r.packed
  }

  function NewCallRef(conId: u16, callId: u16): (r: CallRef)
    ensures r.packed as int == callId as int * 0x1_0000 + conId as int
    ensures r.reserved as int == USIZE_MAX
  {
    CallRef(Pack(conId, callId), RESERVED)
  }

  /** The order `#[derive(PartialOrd, Ord)]` gives the key: lexicographic on
      (packed word, second field). */
  predicate RefLess(a: CallRef, b: CallRef)
    ensures a.packed < b.packed ==> RefLess(a, b)
    ensures RefLess(a, b) ==> a != b && a.packed <= b.packed
    ensures a.packed == b.packed ==> (RefLess(a, b) <==> a.reserved < b.reserved)
  {
    a.packed < b.packed || (a.packed == b.packed && a.reserved < b.reserved)
  }

  // ---------------------------------------------------------------------
  // Laws

  /** Both ids survive packing and unpacking. */
  lemma PackRoundTrip(conId: u16, callId: u16)
    ensures CallId(NewCall(conId, callId)) == callId
    ensures ConId(NewCall(conId, callId)) == conId
  {
  }

  /** Distinct id pairs give distinct identities. */
  lemma NewCallInjective(a: u16, b: u16, c: u16, d: u16)
    ensures NewCall(a, b) == NewCall(c, d) <==> a == c && b == d
  {
    if NewCall(a, b) == NewCall(c, d) {
      PackRoundTrip(a, b);
      PackRoundTrip(c, d);
    }
  }

  /** Every call is rebuilt by `NewCall` from its own ids, once its second
      field is the reserved one. */
  lemma UnpackRoundTrip(c: Call)
    requires c.reserved == RESERVED
    ensures NewCall(ConId(c), CallId(c)) == c
  {
  }

  /** A constructed call is the sentinel exactly for the all-ones ids: the
      sentinel is reachable through `NewCall`. */
  lemma NewCallIsEmptyIff(conId: u16, callId: u16)
    ensures IsEmpty(NewCall(conId, callId)) <==> conId == 0xFFFF && callId == 0xFFFF
  {
  }

  lemma SentinelIsConstructible()
    ensures NewCall(0xFFFF, 0xFFFF) == EmptyCall()
    ensures IsEmpty(EmptyCall())
  {
  }

  /** Invalidation kills any call, and doing it twice is doing it once. */
  lemma InvalidateIdempotent(c: Call)
    ensures IsEmpty(Invalidate(c))
    ensures Invalidate(Invalidate(c)) == Invalidate(c)
  {
  }

  /** A call always matches its own key and the key built from its ids. */
  lemma IsRefOfOwnRef(conId: u16, callId: u16, c: Call)
    ensures IsRef(c, GetRef(c))
    ensures IsRef(NewCall(conId, callId), NewCallRef(conId, callId))
    ensures GetRef(NewCall(conId, callId)) == NewCallRef(conId, callId)
  {
  }

  /** `IsRef` looks only at the packed word: keys differing in the second
      field match alike, and a key matches iff it carries the same ids. */
  lemma IsRefIgnoresReserved(c: Call, r: CallRef, s: usize)
    ensures IsRef(c, r) <==> IsRef(c, r.(reserved := s))
    ensures IsRef(c, r) <==> IsRef(c.(reserved := s), r)
  {
  }

  /** A key taken before invalidation still matches a call freshly built from
      the same ids: key equality alone cannot detect staleness, while the
      invalidated call itself matches only the all-ones key. */
  lemma StaleRefStillMatches(conId: u16, callId: u16)
    ensures var before := NewCall(conId, callId);
            var key := GetRef(before);
            IsRef(NewCall(conId, callId), key)
            && (IsRef(Invalidate(before), key) <==> conId == 0xFFFF && callId == 0xFFFF)
  {
  }

  /** The derived key order is a strict total order. */
  lemma RefLessIsStrictTotal(a: CallRef, b: CallRef, c: CallRef)
    ensures !RefLess(a, a)
    ensures RefLess(a, b) && RefLess(b, c) ==> RefLess(a, c)
    ensures a == b || RefLess(a, b) || RefLess(b, a)
    ensures !(RefLess(a, b) && RefLess(b, a))
  {
  }
}
