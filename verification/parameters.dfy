/** The parameter update behind the adaptive variant's "Execute" button:
    three text fields (block size, alpha, P) are parsed and checked, and the
    transform is re-run. */
module Parameters {
  import opened Outcomes
  import opened Tiling
  import JavaArith

  /** `Utilities.IMAGE_SIZE`. */
  const ImageSize: nat := 512

  /** The adaptive variant's parameters. */
  datatype Params = Params(blockSize: int, alpha: int, p: int)

  /** The values the constructor starts with. */
  const Initial: Params := Params(4, 100, 1)

  /** The error dialogs the listener can show, in the order shown. */
  datatype Dialog = BlockSizeError | AlphaError | PError | ParseIntError

  /** The listener's effect: the parameters afterwards, the dialogs shown,
      whether the re-run transform produced an image, and whether an `Error`
      (one that `catch (Exception err)` does not catch) left the listener. */
  datatype Response = Response(params: Params, dialogs: seq<Dialog>, transformed: bool, escaped: bool)

  /** A block size the image can be cut by. */
  predicate ValidBlockSize(b: int) {
    b > 0 && Geometry(ImageSize, b).Valid()
  }

  predicate ValidParams(q: Params) {
    ValidBlockSize(q.blockSize) && q.alpha >= 0 && q.p >= 0
  }

  /** The block-size check `IMAGE_SIZE % b != 0 || b <= 0`. Its `%` comes
      first, so a zero block size throws before the check can fail. */
  function BlockSizeRejected(b: int): bool
    requires b != 0
  {
    JavaArith.Rem(ImageSize as int, b) != 0 || b <= 0
  }

  lemma BlockSizeCheck(b: int)
    requires b != 0
    ensures BlockSizeRejected(b) <==> !ValidBlockSize(b)
  {
    if b > 0 {
      assert JavaArith.Rem(ImageSize as int, b) == ImageSize % b;
    }
  }

  /** The dialogs of the three checks on parsed values, in the order the
      listener shows them. */
  function Checks(q: Params): (ds: seq<Dialog>)
    requires q.blockSize != 0
    ensures BlockSizeError in ds <==> !ValidBlockSize(q.blockSize)
    ensures AlphaError in ds <==> q.alpha < 0
    ensures PError in ds <==> q.p < 0
    ensures ParseIntError !in ds
    ensures ds == [] <==> ValidParams(q)
  {
    BlockSizeCheck(q.blockSize);
    (if BlockSizeRejected(q.blockSize) then [BlockSizeError] else [])
    + (if q.alpha < 0 then [AlphaError] else [])
    + (if q.p < 0 then [PError] else [])
  }

  /** Whether the transform, re-run with block size `b`, cuts the image
      without an exception. A negative size fails the allocation of the cut
      image; a size above 512 makes the tile side 0 and the tile index a
      division by zero; any other size that does not divide 512 sends the
      tile index of pixel 511 past the last tile. */
  lemma TransformFaults(b: int)
    requires b != 0
    ensures var side := JavaArith.Div(ImageSize, b);
      !ValidBlockSize(b) <==> b < 0 || side == 0 || (side > 0 && (ImageSize - 1) / side >= b)
  {
    if b > 0 {
      var side := ImageSize / b;
      JavaArith.Euclid(ImageSize, b);
      if side > 0 {
        JavaArith.MulSuccessor(side, b - 1);
        assert side * b == b * side;
        if ImageSize % b == 0 {
          JavaArith.DivModUnique(side * b - 1, side, b - 1, side - 1);
          JavaArith.DivMonotone(ImageSize - 1, side * b - 1, side);
        } else {
          JavaArith.DivModUnique(side * b, side, b, 0);
          JavaArith.DivMonotone(side * b, ImageSize - 1, side);
        }
      }
    }
  }

  /** The listener as written. Each field is parsed in turn (`None` is a
      text that `Integer.parseInt` rejects); every failed check only shows a
      dialog, and once all three fields parse, all three values are assigned
      and the transform is re-run. A parse failure, or the `% 0` of a zero
      block size, jumps to the catch block before any assignment; an invalid
      block size jumps there from inside the transform, after the
      assignment, so its dialog is followed by the parse-int dialog and the
      image is not transformed.

      `heapExhausted(b)` says whether the re-run's allocations for a positive
      block size `b` exhaust the Java heap, whose size is outside the model;
      the cut image alone needs `b * b` arrays, so a block size in the
      hundreds of thousands exhausts any heap. The `OutOfMemoryError` is not
      an `Exception`: it leaves the listener without the parse-int dialog. A
      negative block size throws before anything is allocated. */
  function Execute(current: Params, blockText: Option<int>, alphaText: Option<int>, pText: Option<int>,
                   heapExhausted: int -> bool): (resp: Response)
    ensures var parsed := blockText.Some? && blockText.value != 0 && alphaText.Some? && pText.Some?;
      && (parsed ==> resp.params == Params(blockText.value, alphaText.value, pText.value))
      && (!parsed ==> resp.params == current)
      && (resp.escaped <==> parsed && blockText.value > 0 && heapExhausted(blockText.value))
      && (resp.transformed <==> parsed && ValidBlockSize(blockText.value) && !heapExhausted(blockText.value))
    ensures !(resp.transformed && resp.escaped)
    ensures ParseIntError in resp.dialogs <==> !resp.transformed && !resp.escaped
    ensures blockText.Some? && blockText.value != 0 && alphaText.Some? && pText.Some? ==>
      resp.dialogs == Checks(resp.params) + (if resp.transformed || resp.escaped then [] else [ParseIntError])
    ensures blockText.Some? && blockText.value != 0 ==>
      (BlockSizeError in resp.dialogs <==> !ValidBlockSize(blockText.value))
    ensures blockText.Some? && blockText.value != 0 && alphaText.Some? ==>
      (AlphaError in resp.dialogs <==> alphaText.value < 0)
  {
    match blockText
    case None => Response(current, [ParseIntError], false, false)
    case Some(b) =>
      if b == 0 then Response(current, [ParseIntError], false, false)
      else
        BlockSizeCheck(b);
        var d1 := if BlockSizeRejected(b) then [BlockSizeError] else [];
        match alphaText
        case None => Response(current, d1 + [ParseIntError], false, false)
        case Some(a) =>
          var d2 := d1 + if a < 0 then [AlphaError] else [];
          match pText
          case None => Response(current, d2 + [ParseIntError], false, false)
          case Some(p) =>
            var q := Params(b, a, p);
            assert d2 + (if p < 0 then [PError] else []) == Checks(q);
            if b > 0 && heapExhausted(b) then Response(q, Checks(q), false, true)
            else if ValidBlockSize(b) then Response(q, Checks(q), true, false)
            else Response(q, Checks(q) + [ParseIntError], false, false)
  }

  /** The listener as evidently intended: the same checks and dialogs, but the
      parameters change, and the transform re-runs, only when all three new
      values pass their checks; a rejected value shows its own dialog and
      no parse-int dialog. */
  function ExecuteValidated(current: Params, blockText: Option<int>, alphaText: Option<int>, pText: Option<int>,
                            heapExhausted: int -> bool): (resp: Response)
    ensures var accepted := blockText.Some? && alphaText.Some? && pText.Some?
      && ValidParams(Params(blockText.value, alphaText.value, pText.value));
      && (accepted ==> resp.params == Params(blockText.value, alphaText.value, pText.value))
      && (!accepted ==> resp.params == current)
      && (resp.transformed <==> accepted && !heapExhausted(blockText.value))
      && (resp.escaped <==> accepted && heapExhausted(blockText.value))
    ensures ParseIntError in resp.dialogs <==>
      !(blockText.Some? && blockText.value != 0 && alphaText.Some? && pText.Some?)
  {
    var asWritten := Execute(current, blockText, alphaText, pText, heapExhausted);
    match (blockText, alphaText, pText)
    case (Some(b), Some(a), Some(p)) =>
      if b == 0 then asWritten
      else
        var q := Params(b, a, p);
        if ValidParams(q) then asWritten else Response(current, Checks(q), false, false)
    case _ => asWritten
  }

  /** The corrected listener only ever holds parameters the transform can cut
      the image with. */
  lemma ExecuteValidatedKeepsValid(current: Params, blockText: Option<int>, alphaText: Option<int>, pText: Option<int>,
                                   heapExhausted: int -> bool)
    requires ValidParams(current)
    ensures ValidParams(ExecuteValidated(current, blockText, alphaText, pText, heapExhausted).params)
    ensures Geometry(ImageSize, ExecuteValidated(current, blockText, alphaText, pText, heapExhausted).params.blockSize).Valid()
  {
  }

  /** On valid input the two listeners agree: the correction only changes
      what happens after a rejected value. */
  lemma ExecuteAgreesOnValidInput(current: Params, b: int, a: int, p: int, heapExhausted: int -> bool)
    requires ValidParams(Params(b, a, p))
    ensures ExecuteValidated(current, Some(b), Some(a), Some(p), heapExhausted)
      == Execute(current, Some(b), Some(a), Some(p), heapExhausted)
    ensures Execute(current, Some(b), Some(a), Some(p), heapExhausted).dialogs == []
  {
    BlockSizeCheck(b);
  }

  /** The defect as written: block size 3 does not divide 512, the dialog is
      shown, and yet 3 becomes the block size; the re-run transform then
      faults while cutting, and the parse-int dialog follows. The cut image
      of block size 3 is small, so the heap holds it. */
  lemma ExecuteAcceptsInvalidBlockSize(heapExhausted: int -> bool)
    requires !heapExhausted(3)
    ensures var resp := Execute(Initial, Some(3), Some(100), Some(1), heapExhausted);
      && !resp.transformed && !resp.escaped
      && resp.params.blockSize == 3
      && !ValidBlockSize(resp.params.blockSize)
      && resp.dialogs == [BlockSizeError, ParseIntError]
  {
    assert ImageSize % 3 == 2;
    BlockSizeCheck(3);
  }

  /** A block size of `Integer.MAX_VALUE` is stored after its dialog too,
      but the allocation of its cut image exhausts the heap: the error leaves
      the listener and no parse-int dialog is shown. */
  lemma ExecuteEscapesOnHugeBlockSize(heapExhausted: int -> bool)
    requires heapExhausted(JavaArith.IntMax)
    ensures var resp := Execute(Initial, Some(JavaArith.IntMax), Some(100), Some(1), heapExhausted);
      && resp.escaped && !resp.transformed
      && resp.params.blockSize == JavaArith.IntMax
      && resp.dialogs == [BlockSizeError]
  {
    assert ImageSize % JavaArith.IntMax == ImageSize;
    BlockSizeCheck(JavaArith.IntMax);
  }

  /** Likewise a negative alpha is stored after its dialog, and with a block
      size of 4 whose re-run fits in the heap, the image is transformed. */
  lemma ExecuteAcceptsNegativeAlpha(heapExhausted: int -> bool)
    requires !heapExhausted(4)
    ensures var resp := Execute(Initial, Some(4), Some(-1), Some(1), heapExhausted);
      && resp.transformed && resp.params.alpha == -1 && resp.dialogs == [AlphaError]
  {
    BlockSizeCheck(4);
  }
}
