/** The signal-processing front end: kernel-size resolution, the three
    rank-order filters built on the rank filter (order_filter, medfilt,
    medfilt2d) and the convolution-method chooser. Exceptions become Err
    values; medfilt's warning becomes a flag returned beside its result. */
module SignalTools {
  import opened NDArrays
  import opened OrderStatistics
  import opened RankFilters

  /** The exceptions the front end raises. LengthMismatch is the error
      _util._fix_sequence_arg raises when a per-axis argument does not have
      one entry per axis; it carries the argument's name. */
  datatype Error =
    | ValueError(message: string)
    | LengthMismatch(argument: string)
    | NotImplementedError(message: string)

  datatype Result<T> = Ok(value: T) | Err(error: Error)

  /** A kernel size as callers give it: None, one int for every axis, or one
      int per axis. */
  datatype KernelArg = Unspecified | Scalar(size: int) | PerAxis(sizes: seq<int>)

  const OddKernelMessage := "Each element of kernel_size should be odd"
  // The source builds this message from two literals, hence the double space.
  const OddDomainMessage := "Each dimension of domain argument  should have an odd number of elements."
  const Input2dMessage := "input must be 2d"
  const Only1dMessage := "Only 1d inputs are supported currently"

  /** medfilt's default kernel_size is None; medfilt2d's is the scalar 3. */
  const MedfiltDefault := Unspecified
  const Medfilt2dDefault := Scalar(3)

  /** Every entry is odd. Python's k % 2 with divisor 2 agrees with Dafny's
      Euclidean %, so negative odd entries count as odd here as they do there. */
  predicate AllOdd(xs: seq<int>) {
    forall d :: 0 <= d < |xs| ==> xs[d] % 2 == 1
  }

  /** _util._fix_sequence_arg: a scalar is broadcast to every axis; a sequence
      is kept if it has one entry per axis. */
  function FixSequenceArg(arg: KernelArg, ndim: nat, name: string): Result<seq<int>>
    requires !arg.Unspecified?
  {
    match arg
    case Scalar(k) => Ok(seq(ndim, _ => k))
    case PerAxis(ks) => if |ks| == ndim then Ok(ks) else Err(LengthMismatch(name))
  }

  /** _get_kernel_size: resolves kernel_size for an ndim-dimensional input. */
  function GetKernelSize(kernelSize: KernelArg, ndim: nat): (r: Result<seq<int>>)
    ensures r.Ok? ==> |r.value| == ndim && AllOdd(r.value)
    ensures kernelSize.Unspecified? ==> r == Ok(seq(ndim, _ => 3))
    ensures kernelSize.Scalar? ==>
      if ndim == 0 || kernelSize.size % 2 == 1
      then r == Ok(seq(ndim, _ => kernelSize.size))
      else r == Err(ValueError(OddKernelMessage))
    ensures kernelSize.PerAxis? ==>
      if |kernelSize.sizes| != ndim then r == Err(LengthMismatch("kernel_size"))
      else if AllOdd(kernelSize.sizes) then r == Ok(kernelSize.sizes)
      else r == Err(ValueError(OddKernelMessage))
  {
    var arg := if kernelSize.Unspecified? then PerAxis(seq(ndim, _ => 3)) else kernelSize;
    match FixSequenceArg(arg, ndim, "kernel_size")
    case Err(e) => Err(e)
    case Ok(ks) =>
      assert kernelSize.Scalar? && ndim > 0 ==> ks[0] == kernelSize.size;
      if exists d :: 0 <= d < |ks| && ks[d] % 2 != 1 then Err(ValueError(OddKernelMessage))
      else Ok(ks)
  }

  /** The resolved sizes, when resolution succeeds, are positive: the rank
      filter can build a window from them. */
  predicate PositiveKernel(kernelSize: KernelArg, ndim: nat) {
    var k := GetKernelSize(kernelSize, ndim);
    k.Ok? ==> forall d :: 0 <= d < |k.value| ==> k.value[d] > 0
  }

  /** order_filter: rejects a domain with an even extent, otherwise applies
      the caller's rank with the caller's domain as footprint. */
  function OrderFilter(a: NDArray, domain: NDArray, rank: int): (r: Result<NDArray>)
    requires Compatible(a, domain)
    requires AllOdd(domain.shape) ==> 0 <= rank < CountNonzero(domain.data)
    ensures !AllOdd(domain.shape) ==> r == Err(ValueError(OddDomainMessage))
    ensures AllOdd(domain.shape) ==>
      && r.Ok? && r.value.shape == a.shape && r.value.Valid()
      && forall i :: 0 <= i < |r.value.data| ==>
           IsOrderStatistic(Neighbours(a, domain, Coords(i, a.shape)), rank, r.value.data[i])
  {
    if exists d :: 0 <= d < |domain.shape| && domain.shape[d] % 2 != 1 then
      Err(ValueError(OddDomainMessage))
    else
      Ok(RankFilter(a, domain, rank))
  }

  /** medfilt's result: the filtered array and whether the "kernel_size
      exceeds volume extent" warning was issued. */
  datatype Filtered = Filtered(output: NDArray, warned: bool)

  /** medfilt: median over a full window of the resolved kernel size, with
      zero padding; warns, and still filters, when the window is longer than
      the volume along some axis. */
  function Medfilt(volume: NDArray, kernelSize: KernelArg): (r: Result<Filtered>)
    requires volume.Valid()
    requires PositiveKernel(kernelSize, |volume.shape|)
    ensures var k := GetKernelSize(kernelSize, |volume.shape|);
      && (k.Err? ==> r == Err(k.error))
      && (k.Ok? ==>
            && r.Ok? && r.value.output.shape == volume.shape && r.value.output.Valid()
            && (r.value.warned <==> exists d :: 0 <= d < |k.value| && k.value[d] > volume.shape[d])
            && forall i :: 0 <= i < |r.value.output.data| ==>
                 var w := Neighbours(volume, Box(k.value), Coords(i, volume.shape));
                 |w| == Prod(k.value) && |w| % 2 == 1
                 && IsOrderStatistic(w, Prod(k.value) / 2, r.value.output.data[i])
                 && IsMedian(w, r.value.output.data[i]))
  {
    match GetKernelSize(kernelSize, |volume.shape|)
    case Err(e) => Err(e)
    case Ok(ks) =>
      var warned := exists d :: 0 <= d < |ks| && ks[d] > volume.shape[d];
      var size := Prod(ks);
      BoxCount(ks);
      ProdOdd(ks);
      RankFilterMedian(volume, Box(ks));
      Ok(Filtered(RankFilter(volume, Box(ks), size / 2), warned))
  }

  /** medfilt2d: 2-D input only; median over a k0 x k1 window at rank
      k0 * k1 / 2, with zero padding. */
  function Medfilt2d(input: NDArray, kernelSize: KernelArg): (r: Result<NDArray>)
    requires input.Valid()
    requires |input.shape| == 2 ==> PositiveKernel(kernelSize, 2)
    ensures |input.shape| != 2 ==> r == Err(ValueError(Input2dMessage))
    ensures |input.shape| == 2 ==>
      var k := GetKernelSize(kernelSize, 2);
      && (k.Err? ==> r == Err(k.error))
      && (k.Ok? ==>
            && r.Ok? && r.value.shape == input.shape && r.value.Valid()
            && forall i :: 0 <= i < |r.value.data| ==>
                 var w := Neighbours(input, Box(k.value), Coords(i, input.shape));
                 |w| == k.value[0] * k.value[1]
                 && IsOrderStatistic(w, k.value[0] * k.value[1] / 2, r.value.data[i])
                 && IsMedian(w, r.value.data[i]))
  {
    if |input.shape| != 2 then Err(ValueError(Input2dMessage))
    else
      match GetKernelSize(kernelSize, |input.shape|)
      case Err(e) => Err(e)
      case Ok(ks) =>
        var order := ks[0] * ks[1] / 2;
        assert Prod(ks) == Prod([ks[0]]) * ks[1] && Prod([ks[0]]) == Prod([]) * ks[0];
        BoxCount(ks);
        ProdOdd(ks);
        RankFilterMedian(input, Box(ks));
        Ok(RankFilter(input, Box(ks), order))
  }

  /** Dtype kinds as numpy names them; the chooser only asks whether a kind is
      one of 'b' (bool), 'u' (unsigned int) or 'i' (signed int). */
  datatype DtypeKind = Bool | UnsignedInt | SignedInt | Float | Complex | OtherKind

  /** What choose_conv_method reads of an input: its rank and dtype kind. */
  datatype ArrayInfo = ArrayInfo(ndim: nat, kind: DtypeKind)

  datatype ConvMode = Full | Valid | Same
  datatype ConvMethod = Direct | Fft

  predicate IsIntegerKind(k: DtypeKind) {
    k in {Bool, UnsignedInt, SignedInt}
  }

  /** _fftconv_faster: a placeholder that always answers that FFT is faster. */
  function FftconvFaster(x: ArrayInfo, h: ArrayInfo, mode: ConvMode): bool {
    true
  }

  /** choose_conv_method: 1-D inputs only; direct convolution when either
      input has an integer or bool dtype, FFT otherwise. */
  function ChooseConvMethod(in1: ArrayInfo, in2: ArrayInfo, mode: ConvMode): (r: Result<ConvMethod>)
    ensures r.Err? <==> in1.ndim != 1 || in2.ndim != 1
    ensures r.Err? ==> r.error == NotImplementedError(Only1dMessage)
    ensures r.Ok? ==> (r.value == Direct <==> IsIntegerKind(in1.kind) || IsIntegerKind(in2.kind))
    ensures r.Ok? ==> (r.value == Fft <==> !IsIntegerKind(in1.kind) && !IsIntegerKind(in2.kind))
  {
    if in1.ndim != 1 || in2.ndim != 1 then Err(NotImplementedError(Only1dMessage))
    else if IsIntegerKind(in1.kind) || IsIntegerKind(in2.kind) then Ok(Direct)
    else if FftconvFaster(in1, in2, mode) then Ok(Fft)
    else Ok(Direct)
  }
}
