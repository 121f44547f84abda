/** The response accumulator, the body-length classification, and the
    post-processing `Response::headers` applies to the header slots the
    HTTP parser filled: stop at the first empty name, drop values that are
    not UTF-8, and pack what is kept to the front in order. */
module Responses {
  import opened Bounded
  import Utf8
  import opened HeaderView

  /** Raw header bytes as received, the status code, and whether the
      response accepted a WebSocket upgrade. */
  datatype Response = Response(hdrs: seq<byte>, status: u16, ws: bool)

  /** `Response::new()`: the derived default. */
  function NewResponse(): (r: Response)
    ensures |r.hdrs| == 0 && r.status == 0 && !r.ws
  {
    Response([], 0, false)
  }

  datatype ResponseBody = Sized(size: usize) | Streamed {
    /** Only a body known to be zero bytes long is empty. */
    predicate IsEmpty()
      ensures IsEmpty() <==> this == Sized(0)
    {
      match this
      case Sized(n) => n == 0
      case Streamed => false
    }
  }

  /** Neither a streamed body nor a sized one with bytes in it is empty. */
  lemma BodyIsEmptyIff(b: ResponseBody)
    ensures b.Streamed? ==> !b.IsEmpty()
    ensures b.Sized? && b.size > 0 ==> !b.IsEmpty()
  {
  }

  // ---------------------------------------------------------------------
  // Header slots

  /** One slot as the parser leaves it: a name (empty when the slot was not
      filled) and the value's raw bytes. */
  datatype RawHeader = RawHeader(name: seq<byte>, value: seq<byte>)

  /** Index of the first slot with an empty name, or `|raw|` if none. */
  function FirstEmptyName(raw: seq<RawHeader>): (n: nat)
    ensures n <= |raw|
    ensures forall j | 0 <= j < n :: |raw[j].name| > 0
    ensures n < |raw| ==> |raw[n].name| == 0
    decreases |raw|
  {
    if |raw| == 0 || |raw[0].name| == 0 then 0
    else 1 + FirstEmptyName(raw[1..])
  }

  /** Whether the slot's value survives `from_utf8`. */
  predicate KeepsValue(r: RawHeader)
  {
    Utf8.Valid(r.value)
  }

  /** The headers the first `n` slots contribute, in slot order. */
  function Selected(raw: seq<RawHeader>, n: nat): seq<Header>
    requires n <= |raw|
  {
    if n == 0 then []
    else Selected(raw, n - 1)
         + (if KeepsValue(raw[n - 1]) then [Header(raw[n - 1].name, raw[n - 1].value)] else [])
  }

  /** The slot indices behind `Selected`, in increasing order. */
  function SelectedIndices(raw: seq<RawHeader>, n: nat): seq<nat>
    requires n <= |raw|
  {
    if n == 0 then []
    else SelectedIndices(raw, n - 1) + (if KeepsValue(raw[n - 1]) then [n - 1] else [])
  }

  /** What `headers()` returns, as a sequence. */
  function Kept(raw: seq<RawHeader>): seq<Header>
  {
    Selected(raw, FirstEmptyName(raw))
  }

  /** `Response::headers` on the 32 slots the parser filled: a scan that
      stops at the first empty name and copies each entry with a UTF-8
      value into the next free output slot. */
  method HeadersOf(raw: seq<RawHeader>) returns (out: Headers)
    requires |raw| == CAPACITY
    ensures out.Valid() && out.next == 0
    ensures out.Remaining() == Kept(raw)
    ensures forall j | out.len <= j < CAPACITY :: out.slots[j] == EMPTY_HEADER
  {
    out := NewHeaders();
    var pos := 0;
    var i := 0;
    while i < |raw|
      invariant 0 <= pos <= i <= FirstEmptyName(raw)
      invariant |out.slots| == CAPACITY && out.next == 0 && out.len == pos
      invariant out.slots[..pos] == Selected(raw, i)
      invariant forall j | pos <= j < CAPACITY :: out.slots[j] == EMPTY_HEADER
    {
      if |raw[i].name| == 0 {
        break;
      }
      var ok := Utf8.CheckUtf8(raw[i].value);
      if ok {
        out := out.(slots := out.slots[pos := Header(raw[i].name, raw[i].value)]);
        pos := pos + 1;
        out := out.(len := pos);
      }
      i := i + 1;
    }
    assert i == FirstEmptyName(raw);
  }

  // ---------------------------------------------------------------------
  // Laws of the post-processing

  /** The kept headers are exactly the slots before the first empty name
      whose values are UTF-8, taken in increasing slot order. */
  lemma {:induction false} SelectedByIndices(raw: seq<RawHeader>, n: nat)
    requires n <= |raw|
    ensures var idx := SelectedIndices(raw, n);
      && |idx| == |Selected(raw, n)|
      && (forall k | 0 <= k < |idx| ::
            idx[k] < n && KeepsValue(raw[idx[k]])
            && Selected(raw, n)[k] == Header(raw[idx[k]].name, raw[idx[k]].value))
      && (forall k, l | 0 <= k < l < |idx| :: idx[k] < idx[l])
      && (forall i | 0 <= i < n && KeepsValue(raw[i]) :: i in idx)
    decreases n
  {
    if n > 0 {
      SelectedByIndices(raw, n - 1);
    }
  }

  /** Every kept header has a non-empty name and a UTF-8 value, and at most
      one header is kept per slot. */
  lemma KeptWellFormed(raw: seq<RawHeader>)
    requires |raw| == CAPACITY
    ensures |Kept(raw)| <= FirstEmptyName(raw) <= CAPACITY
    ensures forall k | 0 <= k < |Kept(raw)| ::
      |Kept(raw)[k].name| > 0 && Utf8.Valid(Kept(raw)[k].value)
  {
    var n := FirstEmptyName(raw);
    SelectedByIndices(raw, n);
    SelectedIndicesBound(raw, n);
  }

  lemma {:induction false} SelectedIndicesBound(raw: seq<RawHeader>, n: nat)
    requires n <= |raw|
    ensures |SelectedIndices(raw, n)| <= n
    decreases n
  {
    if n > 0 {
      SelectedIndicesBound(raw, n - 1);
    }
  }

  /** When every slot holds a named header with a UTF-8 value, all 32 are
      kept unchanged: the 32-slot array is the only limit. */
  lemma {:induction false} AllGoodAllKept(raw: seq<RawHeader>, n: nat)
    requires n <= |raw|
    requires forall i | 0 <= i < |raw| :: |raw[i].name| > 0 && KeepsValue(raw[i])
    ensures Selected(raw, n) == seq(n, i requires 0 <= i < n => Header(raw[i].name, raw[i].value))
    ensures n == |raw| ==> Kept(raw) == Selected(raw, n)
    decreases n
  {
    if n > 0 {
      AllGoodAllKept(raw, n - 1);
    }
  }

  /** A slot whose value is not UTF-8 is skipped and the ones after it still
      come through, in order. */
  lemma SkipsBadValue(raw: seq<RawHeader>, a: RawHeader, b: RawHeader, bad: RawHeader, c: RawHeader)
    requires |raw| == CAPACITY
    requires raw[0] == a && raw[1] == b && raw[2] == bad && raw[3] == c && |raw[4].name| == 0
    requires |a.name| > 0 && |b.name| > 0 && |bad.name| > 0 && |c.name| > 0
    requires KeepsValue(a) && KeepsValue(b) && !KeepsValue(bad) && KeepsValue(c)
    ensures Kept(raw) == [Header(a.name, a.value), Header(b.name, b.value), Header(c.name, c.value)]
  {
    assert FirstEmptyName(raw) == 4;
    assert Selected(raw, 1) == [] + [Header(a.name, a.value)];
    assert Selected(raw, 2) == [Header(a.name, a.value)] + [Header(b.name, b.value)];
    assert Selected(raw, 3) == Selected(raw, 2);
  }
}
