/** The control flow of the fixed-step ray march that both renderers run: the
    samples of one ray are visited in order; the march stops at the first
    sample whose map cell is not a space, and every sample before it writes
    one trace pixel. The sample points themselves come from `cos`/`sin` in
    floating point, so a sample is given here by the two integers the source
    derives from it: the map cell index `int(cx) + int(cy) * map_width` and
    the trace pixel index `pix_x + pix_y * window_width`. */
module RayMarch {
  import opened Machine

  datatype Option<T> = None | Some(value: T)

  /** One step of the march. */
  datatype Sample = Sample(cell: nat, pixel: nat)

  /** The source indexes the map with the cell of every sample it reaches,
      unchecked, so the cells must lie inside the map. */
  predicate CellsWithin(samples: seq<Sample>, cells: nat)
  {
    forall m :: 0 <= m < |samples| ==> samples[m].cell < cells
  }

  /** Likewise the trace pixels must lie inside the framebuffer. */
  predicate PixelsWithin(samples: seq<Sample>, pixels: nat)
  {
    forall m :: 0 <= m < |samples| ==> samples[m].pixel < pixels
  }

  /** The index of the first sample that lands on a wall, if any. */
  function FirstWall(tiles: seq<char>, samples: seq<Sample>): (hit: Option<nat>)
    requires CellsWithin(samples, |tiles|)
    ensures hit.Some? ==> hit.value < |samples| && tiles[samples[hit.value].cell] != ' '
    ensures hit.Some? ==> forall m :: 0 <= m < hit.value ==> tiles[samples[m].cell] == ' '
    ensures hit.None? ==> forall m :: 0 <= m < |samples| ==> tiles[samples[m].cell] == ' '
  {
    if samples == [] then None
    else if tiles[samples[0].cell] != ' ' then Some(0)
    else match FirstWall(tiles, samples[1..])
      case None => None
      case Some(k) => Some(k + 1)
  }

  /** The number of samples that write a trace pixel: those before the first
      wall, or all of them when the march finds none. */
  function TraceCount(tiles: seq<char>, samples: seq<Sample>): (n: nat)
    requires CellsWithin(samples, |tiles|)
    ensures n <= |samples|
  {
    match FirstWall(tiles, samples)
    case None => |samples|
    case Some(k) => k
  }

  /** The frame after the trace pixels of `samples` are written in order. */
  function Traces(s: seq<Word>, samples: seq<Sample>, color: Word): (r: seq<Word>)
    requires PixelsWithin(samples, |s|)
    ensures |r| == |s|
  {
    if samples == [] then s
    else Traces(s, samples[..|samples| - 1], color)[samples[|samples| - 1].pixel := color]
  }

  /** Some sample writes its trace at pixel k. */
  predicate Traced(samples: seq<Sample>, k: int)
  {
    exists m :: 0 <= m < |samples| && samples[m].pixel == k
  }

  /** All trace pixels have the same colour, so the order of the writes does
      not matter: a pixel ends up with the trace colour exactly when some
      sample traces it, and keeps its value otherwise. */
  lemma {:induction false} TracesAt(s: seq<Word>, samples: seq<Sample>, color: Word, k: int)
    requires PixelsWithin(samples, |s|) && 0 <= k < |s|
    ensures Traces(s, samples, color)[k] == if Traced(samples, k) then color else s[k]
  {
    if samples != [] {
      var n := |samples| - 1;
      TracesAt(s, samples[..n], color, k);
      if Traced(samples, k) && samples[n].pixel != k {
        var m :| 0 <= m < |samples| && samples[m].pixel == k;
        assert samples[..n][m].pixel == k;
      }
      if Traced(samples[..n], k) {
        var m :| 0 <= m < n && samples[..n][m].pixel == k;
        assert samples[m].pixel == k;
      }
    }
  }

  /** The march of raycasterfiles/rangefinder.cpp: stop at the first wall,
      trace every sample before it. */
  method TraceRay(fb: array<Word>, tiles: seq<char>, samples: seq<Sample>, color: Word)
    returns (hit: Option<nat>)
    requires CellsWithin(samples, |tiles|) && PixelsWithin(samples, fb.Length)
    modifies fb
    ensures hit == FirstWall(tiles, samples)
    ensures fb[..] == Traces(old(fb[..]), samples[..TraceCount(tiles, samples)], color)
  {
    hit := None;
    for m := 0 to |samples|
      invariant fb[..] == Traces(old(fb[..]), samples[..m], color)
      invariant forall m' :: 0 <= m' < m ==> tiles[samples[m'].cell] == ' '
    {
      if tiles[samples[m].cell] != ' ' {
        hit := Some(m);
        break;
      }
      fb[samples[m].pixel] := color;
      assert samples[..m + 1][..m] == samples[..m];
    }
    assert hit.None? ==> samples[..|samples|] == samples;
  }
}
