# Rank-order filtering in cupyx.scipy.signal

This project models the rank-order filtering front end of
`cupyx/scipy/signal/signaltools.py`. It also models the small
convolution-method chooser that sits beside the filters.

The front end has five parts:

- `_get_kernel_size` resolves a kernel size. `None` becomes 3 on every axis, and a scalar is broadcast to every axis. Every resolved size must be odd, otherwise a `ValueError` is raised.
- `order_filter` rejects a footprint ("domain") with an even extent. Otherwise it applies the caller's rank with that footprint.
- `medfilt` filters at the middle rank `prod(kernel_size) // 2` over a full box window. It warns when the window is longer than the volume along some axis.
- `medfilt2d` accepts only 2-D input and filters at rank `k0 * k1 // 2`.
- `choose_conv_method` raises `NotImplementedError` for inputs that are not 1-D. It answers `direct` when either dtype kind is bool, unsigned int or signed int. Otherwise it answers `fft`, because `_fftconv_faster` always says yes.

All three filters hand their work to the n-dimensional rank filter in constant
mode with fill value 0. That filter is not part of this model's source files. It is
modelled here as a reference definition of the behaviour the filters
document:

1. Centre the footprint on each element.
2. Collect the zero-padded values under the footprint's non-zero positions.
3. Sort the collection ascending.
4. Output the value at position `rank`, where 0 is the smallest.

The output has the input's shape.

Modules:

- `NDArrays` (`ndarrays.dfy`) holds row-major n-dimensional integer arrays. `Flatten` and `Coords` are proved to be inverse bijections between in-bounds coordinates and positions.
- `OrderStatistics` (`order_statistics.dfy`) covers insertion sort, the element at a given rank of the sorted window (`Select`), and an independent counting characterization of that element (`IsOrderStatistic`). It also covers the median (`IsMedian`).
- `RankFilters` (`rank_filter.dfy`) holds the zero-padded neighbourhood of a footprint, the rank filter, and box footprints. It also has the 1-D sliding window the box neighbourhood reduces to.
- `SignalTools` (`signaltools.py`'s functions, in `signaltools.dfy`) turns exceptions into `Err` values. Medfilt's warning becomes a flag returned beside its result.
- `FilterExamples` (`examples.dfy`) holds worked cases: `medfilt([5, 1, 9, 2, 8])` is `[1, 5, 2, 8, 2]` with no warning, a volume shorter than the window triggers the warning, and medfilt2d's default is the 3 x 3 median.

## Model

| member | source | states |
|---|---|---|
| SignalTools.GetKernelSize | cupyx/scipy/signal/signaltools.py:184-191 | On success, one odd size per axis. None gives 3 on every axis. A scalar is broadcast when it is odd, or when there are no axes. A per-axis sequence of the wrong length gives the length-mismatch error. Any even size gives the ValueError "Each element of kernel_size should be odd". |
| SignalTools.OrderFilter | cupyx/scipy/signal/signaltools.py:93-119 | A domain with an even extent on some axis gives the ValueError with its message. Otherwise the result has the input's shape, and each element is the rank-th smallest of its domain-selected, zero-padded neighbourhood. |
| SignalTools.Medfilt | cupyx/scipy/signal/signaltools.py:122-150 | Kernel-size errors propagate. The warning is issued exactly when some resolved size exceeds the volume's extent on that axis. The output keeps the volume's shape. Every neighbourhood has prod(kernel_size) elements, an odd number, and each output is its element at rank prod // 2, which is its median. |
| SignalTools.Medfilt2d | cupyx/scipy/signal/signaltools.py:153-181 | A non-2-D input gives the ValueError "input must be 2d". Kernel-size errors propagate. Otherwise each output is the element at rank k0 * k1 // 2 of a k0 x k1 zero-padded neighbourhood, which is its median. |
| SignalTools.ChooseConvMethod | cupyx/scipy/signal/signaltools.py:10-48 | It is an error exactly when either input is not 1-D, and then the error is NotImplementedError with its message. Otherwise the answer is direct exactly when either dtype kind is b, u or i, and fft exactly when neither is. |
| RankFilters.RankFilter | cupyx/scipy/signal/signaltools.py:96-111 | Same shape as the input. Each output element belongs to its footprint-selected, zero-padded neighbourhood and is that neighbourhood's rank-th smallest, counted from 0. |
| RankFilters.Neighbours | cupyx/scipy/signal/signaltools.py:96-98 | The neighbourhood holds one value per non-zero footprint entry. |
| RankFilters.RankFilterMedian | cupyx/scipy/signal/signaltools.py:148-150 | With an odd number of selected neighbours, the middle rank gives the median of every neighbourhood. |
| RankFilters.RankFilterFromInputOrPadding | cupyx/scipy/signal/signaltools.py:125-126 | Every output element is an input element or the padding value 0. |
| RankFilters.RankFilterZeroFixed | cupyx/scipy/signal/signaltools.py:125-126 | Every footprint and rank leave an all-zero input unchanged. |
| RankFilters.NeighboursOneDim | cupyx/scipy/signal/signaltools.py:125-126 | In 1-D, the neighbourhood of a length-k box is the zero-padded window of k consecutive samples centred at k / 2. |
| RankFilters.BoxCount | cupyx/scipy/signal/signaltools.py:148-149 | A box window of the given sizes selects prod(sizes) neighbours, the `size` medfilt computes. |
| OrderStatistics.Sort | cupyx/scipy/signal/signaltools.py:98-99 | The sorted list is ascending and a permutation of the selected elements. |
| OrderStatistics.Select | cupyx/scipy/signal/signaltools.py:99-100 | The element at position rank of the sorted list is an element of the list. At most rank elements lie below it, and more than rank lie at or below it. |
| OrderStatistics.SelectCharacterization | cupyx/scipy/signal/signaltools.py:99-100 | Select(s, rank) equals v if and only if v satisfies the counting characterization. |
| OrderStatistics.OrderStatisticUnique | cupyx/scipy/signal/signaltools.py:99-100 | At most one value is the order statistic of a given rank. |
| OrderStatistics.CountLessSort | cupyx/scipy/signal/signaltools.py:99 | Sorting does not change how many elements lie below any bound. |
| OrderStatistics.SelectMinimum | cupyx/scipy/signal/signaltools.py:106-107 | Rank 0 gives the smallest element of the window. |
| OrderStatistics.SelectMaximum | cupyx/scipy/signal/signaltools.py:99-100 | The last rank gives the largest element of the window. |
| OrderStatistics.SelectMedian | cupyx/scipy/signal/signaltools.py:148-149 | For a window of odd length, the middle rank gives v if and only if v is a median. |
| NDArrays.ProdOdd | cupyx/scipy/signal/signaltools.py:148-149 | The product of odd kernel sizes is odd, so size // 2 is the middle rank. |
| NDArrays.Coords | cupyx/scipy/signal/signaltools.py:110-111 | Every position of an array has an in-bounds coordinate that flattens back to it. |
| NDArrays.CoordsOfFlatten | cupyx/scipy/signal/signaltools.py:110-111 | Every in-bounds coordinate is recovered from its position, so output positions and input coordinates correspond one to one. |
| FilterExamples.MedfiltSample | cupyx/scipy/signal/signaltools.py:125-126 | A 1-D output sample under the default kernel equals any value satisfying the median counts of its zero-padded window of three. |
| FilterExamples.MedfiltExample | cupyx/scipy/signal/signaltools.py:122-150 | medfilt of [5, 1, 9, 2, 8] with the default kernel is [1, 5, 2, 8, 2], with no warning. |
| FilterExamples.MedfiltWarningExample | cupyx/scipy/signal/signaltools.py:144-150 | medfilt of [4, 7] warns, because the window is longer than the volume, and still returns the zero-padded medians [4, 4]. |
| FilterExamples.Medfilt2dDefaultRank | cupyx/scipy/signal/signaltools.py:153-181 | medfilt2d's default kernel is the 3 x 3 box at rank 4, the median of nine neighbours. |

## Left out

- `wiener` (lines 51-90) is not modelled. It works in floating point, and the uniform filter it calls is not part of this model.
- `tests/cupyx_tests/jit_tests/test_cub.py` is not modelled. It exercises GPU JIT reductions and has nothing to do with the filters.
- Arrays hold unbounded integers. dtypes, medfilt's forced float64 output and GPU execution are not modelled.
- The n-dimensional rank filter, the uniform filter and `_util._fix_sequence_arg` are not part of this model's source files:
  - The rank filter is modelled by the reference definition above.
  - `_fix_sequence_arg` is modelled as broadcasting a scalar and accepting a sequence only when it has one entry per axis. The length-mismatch error it raises is modelled as `LengthMismatch` with the argument's name, and its message is not modelled.
- `warnings.warn` is modelled as the `warned` flag of medfilt's result. The message text is not modelled.
- SignalTools.Medfilt: requires the resolved kernel sizes to be positive. The source's odd-size check lets negative odd sizes through (Python's `-1 % 2` is 1), and what the rank filter then does with them is not part of this model.
- SignalTools.Medfilt2d: requires the resolved kernel sizes to be positive, for the same reason.
- SignalTools.OrderFilter: requires rank to lie in 0 .. (number of non-zero domain entries - 1) when the domain passes its oddness check. Out-of-range and negative ranks are handled inside the rank filter, which is not part of this model.
- Line 187 reads `._util._fix_sequence_arg(...)`. The leading dot is a syntax error, so the module as written does not import. The model uses the evidently intended call `_util._fix_sequence_arg(...)`.
- `choose_conv_method`'s `mode` argument only reaches `_fftconv_faster`, which ignores it. It is carried through the model without effect.
