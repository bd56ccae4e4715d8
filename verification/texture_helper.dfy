/** `TextureHelper._ProcessAsync`: after the texture has been rendered into an
    offscreen target and its pixels read back, the byte buffer is rewritten in
    place (channel remap, then an optional vertical flip) and handed to
    `resolve`; a missing render target ends in `reject`, and an effect that is
    not compiled yet ends in a scheduled retry.

    The rendering engine is not part of this model: whether the effect is
    ready, whether the render target has an internal texture, and the
    texture's `isCube` and `invertY` flags are parameters, and the array
    returned by `readPixels` is the `data` parameter. */
module TextureHelper {
  import opened PixelRemap
  import opened RowFlip

  /** The part of the inspector's global state this routine touches. */
  class GlobalState {
    var blockMutationUpdates: bool
  }

  /** A callback `_ProcessAsync` ends in. `blocked` records whether mutation
      updates were suppressed at the moment the callback ran. */
  datatype Call = ScheduleRetry | Resolve(blocked: bool) | Reject(blocked: bool)

  /** The buffer `resolve` receives, as a function of the pixels read back. */
  function Postprocessed(c: Channels, isCube: bool, invertY: bool, width: nat, height: nat,
                         s: seq<Byte>): (t: seq<Byte>)
    requires |s| == width * height * 4
    ensures |t| == |s|
  {
    var remapped := RemapPass(c, isCube, s);
    if invertY || isCube then FlipRows(remapped, width * 4, height) else remapped
  }

  /** The buffer `resolve` receives is the remapped buffer with its rows
      reversed when the texture has `invertY` set or is a cube, and the
      remapped buffer itself otherwise. */
  lemma PostprocessedRows(c: Channels, isCube: bool, invertY: bool, width: nat, height: nat,
                          s: seq<Byte>, row: nat, col: nat)
    requires |s| == width * height * 4 && row < height && col < width * 4
    ensures |RemapPass(c, isCube, s)| == height * (width * 4)
    ensures invertY || isCube ==>
              Postprocessed(c, isCube, invertY, width, height, s)[Cell(width * 4, height, row, col)]
              == RemapPass(c, isCube, s)[Cell(width * 4, height, height - 1 - row, col)]
    ensures !(invertY || isCube) ==>
              Postprocessed(c, isCube, invertY, width, height, s) == RemapPass(c, isCube, s)
  {
    var remapped := RemapPass(c, isCube, s);
    assert |remapped| == height * (width * 4);
    if invertY || isCube {
      FlipRowsAt(remapped, width * 4, height, row, col);
    }
  }

  /** The channel remap loop: every 4-byte pixel rewritten from its own
      original bytes. */
  method RemapChannels(data: array<Byte>, width: nat, height: nat, channels: Channels)
    requires data.Length == width * height * 4
    modifies data
    ensures data[..] == RemapAll(channels, old(data[..]))
  {
    ghost var input := data[..];
    ghost var expected := RemapAll(channels, input);
    var i := 0;
    while i < width * height * 4
      invariant 0 <= i <= data.Length && i % 4 == 0
      invariant forall k :: 0 <= k < i ==> data[k] == expected[k]
      invariant forall k :: i <= k < data.Length ==> data[k] == input[k]
      decreases data.Length - i
    {
      RemapAllAt(channels, input, i / 4);
      assert 4 * (i / 4) == i;
      RemapPixelAt(data, i, channels);
      i := i + 4;
    }
  }

  /** One iteration of the remap loop: the pixel at byte offset `i`. */
  method RemapPixelAt(data: array<Byte>, i: nat, channels: Channels)
    requires i + 4 <= data.Length
    modifies data
    ensures Pixel(data[i], data[i + 1], data[i + 2], data[i + 3])
            == RemapPixel(channels, old(Pixel(data[i], data[i + 1], data[i + 2], data[i + 3])))
    ensures forall k :: 0 <= k < data.Length && !(i <= k < i + 4) ==> data[k] == old(data[k])
  {
    if channels.A && !channels.R && !channels.G && !channels.B {
      // alpha is the only channel: show it across all channels
      data[i] := data[i + 3];
      data[i + 1] := data[i + 3];
      data[i + 2] := data[i + 3];
      data[i + 3] := 255;
      return;
    }
    var r, g, b, a := data[i], data[i + 1], data[i + 2], data[i + 3];
    // alpha hidden: make everything fully opaque
    if !channels.A {
      a := 255;
    }
    // one colour shown: map the others to it; two shown: the unused one is 0
    if !channels.R {
      if channels.G && !channels.B {
        r := g;
      } else if channels.B && !channels.G {
        r := b;
      } else {
        r := 0;
      }
    }
    if !channels.G {
      if channels.R && !channels.B {
        g := r;
      } else if channels.B && !channels.R {
        g := b;
      } else {
        g := 0;
      }
    }
    if !channels.B {
      if channels.R && !channels.G {
        b := r;
      } else if channels.G && !channels.R {
        b := g;
      } else {
        b := 0;
      }
    }
    data[i] := r;
    data[i + 1] := g;
    data[i + 2] := b;
    data[i + 3] := a;
  }

  /** The vertical flip loop: row `i` is swapped with row `height - 1 - i`
      for every `i < height / 2`, where `height / 2` is a floating-point
      number, so an odd height also swaps the middle row with itself. */
  method FlipVertically(data: array<Byte>, width: nat, height: nat)
    requires data.Length == width * height * 4
    modifies data
    ensures data[..] == FlipRows(old(data[..]), width * 4, height)
  {
    var numberOfChannelsByLine := width * 4;
    var halfHeight: real := height as real / 2.0;
    ghost var input := data[..];
    ghost var len := numberOfChannelsByLine;
    assert |input| == height * len;
    var i := 0;
    while (i as real) < halfHeight
      invariant 0 <= i && 2 * i <= height + 1
      invariant forall r: nat, c: nat :: r < i && c < len ==>
                  data[Cell(len, height, r, c)] == input[Cell(len, height, height - 1 - r, c)]
      invariant forall r: nat, c: nat :: r < i && c < len ==>
                  data[Cell(len, height, height - 1 - r, c)] == input[Cell(len, height, r, c)]
      invariant forall r: nat, c: nat :: i <= r < height - i && c < len ==>
                  data[Cell(len, height, r, c)] == input[Cell(len, height, r, c)]
      decreases height - i
    {
      SwapRows(data, numberOfChannelsByLine, height, i);
      i := i + 1;
    }
    forall r: nat, c: nat | r < height && c < len
      ensures data[Cell(len, height, r, c)] == input[Cell(len, height, height - 1 - r, c)]
    {
      if r >= i {
        assert data[Cell(len, height, height - 1 - (height - 1 - r), c)]
               == input[Cell(len, height, height - 1 - r, c)];
      }
    }
    FlipRowsUnique(data[..], input, len, height);
  }

  /** One iteration of the flip's outer loop: the inner loop swaps row `i`
      with row `height - 1 - i` byte by byte. */
  method SwapRows(data: array<Byte>, numberOfChannelsByLine: nat, height: nat, i: nat)
    requires data.Length == height * numberOfChannelsByLine && 2 * i < height
    modifies data
    ensures forall c: nat :: c < numberOfChannelsByLine ==>
              data[Cell(numberOfChannelsByLine, height, i, c)]
                == old(data[Cell(numberOfChannelsByLine, height, height - 1 - i, c)]) &&
              data[Cell(numberOfChannelsByLine, height, height - 1 - i, c)]
                == old(data[Cell(numberOfChannelsByLine, height, i, c)])
    ensures forall r: nat, c: nat ::
              r < height && r != i && r != height - 1 - i && c < numberOfChannelsByLine ==>
              data[Cell(numberOfChannelsByLine, height, r, c)]
                == old(data[Cell(numberOfChannelsByLine, height, r, c)])
  {
    ghost var len := numberOfChannelsByLine;
    CellsDistinct(len, height);
    var targetLine := height - i - 1;
    var j := 0;
    while j < numberOfChannelsByLine
      invariant 0 <= j <= len
      invariant forall c: nat :: c < j ==>
                  data[Cell(len, height, i, c)] == old(data[Cell(len, height, targetLine, c)]) &&
                  data[Cell(len, height, targetLine, c)] == old(data[Cell(len, height, i, c)])
      invariant forall c: nat :: j <= c < len ==>
                  data[Cell(len, height, i, c)] == old(data[Cell(len, height, i, c)]) &&
                  data[Cell(len, height, targetLine, c)] == old(data[Cell(len, height, targetLine, c)])
      invariant forall r: nat, c: nat :: r < height && r != i && r != targetLine && c < len ==>
                  data[Cell(len, height, r, c)] == old(data[Cell(len, height, r, c)])
    {
      var currentCell := j + i * numberOfChannelsByLine;
      var targetCell := j + targetLine * numberOfChannelsByLine;
      assert currentCell == Cell(len, height, i, j);
      assert targetCell == Cell(len, height, targetLine, j);
      var temp := data[currentCell];
      data[currentCell] := data[targetCell];
      data[targetCell] := temp;
      j := j + 1;
    }
  }

  /** `_ProcessAsync` once the texture is loaded. */
  method ProcessAsync(data: array<Byte>, width: nat, height: nat, channels: Channels,
                      isCube: bool, invertY: bool, effectReady: bool, hasInternalTexture: bool,
                      globalState: GlobalState?)
    returns (calls: seq<Call>)
    requires data.Length == width * height * 4
    modifies data, globalState
    // effect not ready: retry later, nothing else happens
    ensures !effectReady ==> calls == [ScheduleRetry] && unchanged(data) &&
                               (globalState != null ==> unchanged(globalState))
    // effect ready: exactly one of resolve and reject, run while updates are blocked
    ensures effectReady ==> |calls| == 1 && !calls[0].ScheduleRetry?
    ensures effectReady ==> (calls[0].Resolve? <==> hasInternalTexture)
    ensures effectReady ==> calls[0].blocked == (globalState != null)
    // and the flag is cleared again on both paths
    ensures effectReady && globalState != null ==> !globalState.blockMutationUpdates
    ensures effectReady && hasInternalTexture ==>
              data[..] == Postprocessed(channels, isCube, invertY, width, height, old(data[..]))
    ensures !hasInternalTexture ==> unchanged(data)
  {
    if !effectReady {
      // the pass post-process is disposed and the call is scheduled again
      calls := [ScheduleRetry];
      return;
    }

    if globalState != null {
      globalState.blockMutationUpdates := true;
    }

    if hasInternalTexture {
      if !isCube {
        if !channels.R || !channels.G || !channels.B || !channels.A {
          RemapChannels(data, width, height, channels);
        }
      }
      assert data[..] == RemapPass(channels, isCube, old(data[..]));
      if invertY || isCube {
        FlipVertically(data, width, height);
      }
      calls := [Resolve(globalState != null && globalState.blockMutationUpdates)];
    } else {
      calls := [Reject(globalState != null && globalState.blockMutationUpdates)];
    }

    if globalState != null {
      globalState.blockMutationUpdates := false;
    }
  }
}
