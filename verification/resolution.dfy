/** `markBitsForAddr` and `markBitsForSpan`: resolving an address to a span
    and a slot, and the cursor for the first slot of a span.

    The heap's span lookup and the span's slot numbering are outside this
    model; they are the two functions of a `Heap` value. What
    `setMarkBitsForIndex` does with the slot it is handed is not part of
    this model either: `markBitsForAddr` here returns that hand-off. */
module Resolution {
  import opened Words
  import opened Outcomes
  import opened Addressing
  import opened Traversal

  /** A span as `h.spanOf` hands it back; only its identity matters here. */
  type SpanId = nat

  /** The heap services the two functions use: `h.spanOf(p)` and the span's
      `objIndex(p)`. */
  datatype Heap = Heap(spanOf: Uintptr -> Result<SpanId>, objIndex: (SpanId, Uintptr) -> Uintptr)

  /** The call `s.setMarkBitsForIndex(objIndex)` that `markBitsForAddr`
      makes on success. */
  datatype MarkRequest = MarkRequest(span: SpanId, slot: Uintptr)

  /** `markBitsForAddr(p, h)`, as the hand-off `markBitsForSpan` makes: a
      failed lookup is returned as is and nothing is marked; otherwise the
      slot of `p` in its span is handed to the span and no error is
      returned. */
  function MarkBitsForAddr(p: Uintptr, h: Heap): Result<MarkRequest> {
    match h.spanOf(p)
    case Err(e) => Err(e)
    case Ok(sp) => Ok(MarkRequest(sp, h.objIndex(sp, p)))
  }

  /** Go's zero `markBits{}`: nil pointer, mask 0, index 0. */
  const ZeroMarkBits: MarkBits := MarkBits(0, 0, 0)

  /** `markBitsForSpan(base, h)`. The named result `mbits` is never assigned,
      so the alignment check always sees the zero record. */
  function MarkBitsForSpan(base: Uintptr, h: Heap): Result<MarkBits> {
    var marked := MarkBitsForAddr(base, h);
    if marked.Err? then Err(marked.error)
    else
      var mbits := ZeroMarkBits;
      if mbits.mask != 1 then Err(UnalignedStart) else Ok(mbits)
  }

  /** `markBitsForSpan` never yields a cursor: a failed lookup is passed on,
      and every successful one ends in the unaligned-start error, whatever
      the span and its slot numbering. */
  lemma MarkBitsForSpanNeverSucceeds(base: Uintptr, h: Heap)
    ensures MarkBitsForSpan(base, h).Err?
    ensures h.spanOf(base).Err? ==> MarkBitsForSpan(base, h).error == h.spanOf(base).error
    ensures h.spanOf(base).Ok? ==> MarkBitsForSpan(base, h).error == UnalignedStart
  {
  }

  /** `markBitsForSpan` as evidently intended: the cursor `bitp` gives for
      the slot of `base`, rejected unless its mask is 1. */
  function MarkBitsForSpanIntended(base: Uintptr, h: Heap): Result<MarkBits> {
    match MarkBitsForAddr(base, h)
    case Err(e) => Err(e)
    case Ok(req) =>
      var mbits := CursorAt(req.slot);
      if mbits.mask != 1 then Err(UnalignedStart) else Ok(mbits)
  }

  /** The mask of `bitp(n)` is 1 exactly when slot `n` starts a word. */
  lemma CursorMaskIsOne(n: Uintptr)
    ensures CursorAt(n).mask == 1 <==> n % 32 == 0
  {
    BitpAddresses(n);
    BitIsSingle(0);
  }

  /** The intended `markBitsForSpan` succeeds exactly when the lookup does and
      the slot starts a word; then it yields the cursor for that slot. For the
      span's own base, slot 0, it yields the start of the bitmap, from which
      `advance` walks every slot in turn. */
  lemma MarkBitsForSpanIntendedChecksAlignment(base: Uintptr, h: Heap)
    ensures MarkBitsForSpanIntended(base, h).Ok?
        <==> h.spanOf(base).Ok? && h.objIndex(h.spanOf(base).value, base) % 32 == 0
    ensures h.spanOf(base).Err? ==> MarkBitsForSpanIntended(base, h) == Err(h.spanOf(base).error)
    ensures MarkBitsForSpanIntended(base, h).Ok? ==>
              var c := MarkBitsForSpanIntended(base, h).value;
              c.mask == 1 && c.index == h.objIndex(h.spanOf(base).value, base)
              && IsSingleBit(c.mask) && Pos(c) == c.index
    ensures h.spanOf(base).Ok? && h.objIndex(h.spanOf(base).value, base) == 0 ==>
              MarkBitsForSpanIntended(base, h) == Ok(Origin)
  {
    if h.spanOf(base).Ok? {
      var n := h.objIndex(h.spanOf(base).value, base);
      CursorMaskIsOne(n);
      BitpAddresses(n);
    }
  }
}
