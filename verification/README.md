# Texture pixel post-processing of the Babylon.js inspector

The inspector's `TextureHelper` shows one texture with a chosen set of
channels (R, G, B, A). It does this by rendering the texture into an
offscreen target through a pass post-process and reading the pixels back as a
flat `Uint8Array`, four bytes per pixel. `_ProcessAsync` then rewrites that
buffer in place, in two passes:

1. The **channel remap**. Each pixel is rewritten from its own four bytes.
   If alpha is the only channel shown, the pixel becomes a grey of alpha.
   If alpha is hidden, the pixel becomes opaque. A single colour channel
   that is shown is copied into the other two. With two colour channels
   shown, the third is zeroed.
2. The **vertical flip**. Row `i` is swapped with row `height - 1 - i`.
   This pass runs for textures with `invertY` set and for cube textures.

Around this work the routine sets the global `blockMutationUpdates` flag and
clears it again. It ends in exactly one of three ways: `resolve` with the
buffer, `reject` when the render target has no internal texture, or a
scheduled retry when the effect is not compiled yet.

The project has three modules:

- `PixelRemap` (`pixel_remap.dfy`) holds the remap as pure functions.
  `RemapPixel` rewrites one pixel, `RemapAll` the whole buffer and
  `RemapPass` the whole pass. The lemmas state what the remap does to a
  buffer.
- `RowFlip` (`row_flip.dfy`) holds the flip as a pure function
  (`FlipRows`). The lemmas give each output element's origin. They also
  prove that any buffer with that property is the flip, that flipping twice
  is the identity, that the flip is a permutation, and that the middle row
  of an odd height stays put.
- `TextureHelper` (`texture_helper.dfy`) holds the source's loops as
  methods that work in place on an `array<Byte>`. `RemapChannels` and
  `FlipVertically` are proved to leave the array equal to `RemapAll` and
  `FlipRows` of its old contents. `ProcessAsync` models the control flow: the retry path, the
  flag set and clear, and the choice between resolve and reject.

The rendering engine is not modelled. `readPixels` becomes the `data`
array, of length `width * height * 4`. The effect's readiness, whether the
render target has an internal texture, and the texture's `isCube` and
`invertY` flags become boolean parameters. A missing `globalState` is a
`null` `GlobalState?`.

Two behaviours of the code are easy to miss:

- The flip runs for cube textures as well as for `invertY` textures
  (`inspector/src/textureHelper.ts:123`).
- The remap is skipped entirely for cube textures
  (`inspector/src/textureHelper.ts:70`), whatever the mask says.

The loop bound `i < halfHeight` compares against `height / 2` as a
floating-point number. `FlipVertically` keeps that comparison on `real`
values. So for an odd height the middle row is swapped with itself, as in
the source.

## Model

| member | source | states |
|---|---|---|
| `PixelRemap.RemapPixel` | inspector/src/textureHelper.ts:73-117 | Alpha alone gives `(a,a,a,255)`. Hidden alpha gives alpha 255. Alpha shown beside a colour keeps its value. Each shown colour keeps its value. A single shown colour is copied into the other two. With two colours shown, the third is 0. With nothing shown, the pixel is `(0,0,0,255)`. With everything shown, the pixel is unchanged. |
| `PixelRemap.RemapAll` | inspector/src/textureHelper.ts:72-118 | Remapping every pixel keeps the buffer's length. |
| `PixelRemap.RemapAllAt` | inspector/src/textureHelper.ts:72-118 | Pixel `p` of the remapped buffer is the remap of pixel `p` of the input, so each pixel is rewritten from its own four bytes only. |
| `PixelRemap.RemapAllIdentity` | inspector/src/textureHelper.ts:70-71 | With all four channels selected, remapping leaves the buffer byte-for-byte unchanged. So the guard that skips the loop for that mask changes no result. |
| `PixelRemap.RemapPass` | inspector/src/textureHelper.ts:70-72 | The remap pass never changes the buffer's length. |
| `PixelRemap.RemapPassAt` | inspector/src/textureHelper.ts:70-118 | For a cube texture the buffer is unchanged. Otherwise pixel `p` of the result is the remap of pixel `p` of the input, for every mask. |
| `PixelRemap.AlphaOpaque` | inspector/src/textureHelper.ts:82-85 | When alpha is hidden on a 2D texture, every alpha byte of the result is 255. |
| `RowFlip.Cell` | inspector/src/textureHelper.ts:126-128 | The offset `row * rowLen + col` of an element of the buffer lies inside the `height * rowLen` bytes. |
| `RowFlip.FlipRows` | inspector/src/textureHelper.ts:122-135 | The flip keeps the buffer's length. |
| `RowFlip.FlipRowsAt` | inspector/src/textureHelper.ts:123-134 | Element `col` of row `row` of the flipped buffer is element `col` of row `height - 1 - row` of the input, so rows are reversed and bytes within a row keep their order. |
| `RowFlip.FlipRowsUnique` | inspector/src/textureHelper.ts:123-134 | Any buffer whose every row is the mirrored row of the input is the flip of the input. |
| `RowFlip.FlipRowsTwice` | inspector/src/textureHelper.ts:123-134 | Flipping twice gives back the original buffer. |
| `RowFlip.FlipRowsPermutes` | inspector/src/textureHelper.ts:130-132 | The flip only moves bytes: the output is a permutation of the input. |
| `RowFlip.MiddleRowFixed` | inspector/src/textureHelper.ts:65 | For an odd height the middle row is unchanged. |
| `TextureHelper.Postprocessed` | inspector/src/textureHelper.ts:70-135 | The buffer handed to `resolve` is as long as the buffer read back. |
| `TextureHelper.PostprocessedRows` | inspector/src/textureHelper.ts:122-135 | When `invertY` is set or the texture is a cube, element `col` of row `row` of the buffer handed to `resolve` is element `col` of row `height - 1 - row` of the remap pass's output. Otherwise the buffer handed to `resolve` is the remap pass's output. |
| `TextureHelper.RemapChannels` | inspector/src/textureHelper.ts:72-118 | After the loop, the array holds `RemapAll` of its old contents. |
| `TextureHelper.RemapPixelAt` | inspector/src/textureHelper.ts:73-117 | One loop iteration turns the four bytes at `i` into `RemapPixel` of their old values and changes no other byte. |
| `TextureHelper.FlipVertically` | inspector/src/textureHelper.ts:122-135 | After the nested loops, which swap rows while `i < height / 2` in floating point, the array holds `FlipRows` of its old contents. |
| `TextureHelper.SwapRows` | inspector/src/textureHelper.ts:125-133 | The inner loop swaps row `i` with row `height - 1 - i` byte by byte and leaves every other row unchanged. |
| `TextureHelper.ProcessAsync` | inspector/src/textureHelper.ts:19-151 | If the effect is not ready, the only outcome is a scheduled retry, and neither the buffer nor the flag changes. Otherwise exactly one of resolve (when an internal texture exists) or reject is called. Mutation updates are blocked when it runs (if there is a global state), and the flag is false afterwards on both paths. On resolve the buffer is `Postprocessed` of what was read back. On reject the buffer is untouched. |

## Left out

- GPU and engine work is not modelled: building `PassPostProcess` and `PassCubePostProcess` (including the cube `face`), the `RenderTargetTexture`, `onApply`, `directRender`, `readPixels`, `unBindFramebuffer` and the `dispose` calls. These are calls into the rendering library. Their results appear only as the parameters described above.
- The 250 ms `setTimeout` retry is one `ScheduleRetry` outcome. The re-invocation it schedules is not followed, because it is timer-driven and unbounded.
- `GetTextureDataAsync` is not modelled: it is the Promise wrapper plus the wait on `onLoadedObservable` before the texture is ready. The model starts when `_ProcessAsync` runs.
- `width` and `height` are natural numbers. The source takes them as JavaScript numbers and does not guard against fractional or negative values.
- The bytes are integers in 0..255. The remap only copies bytes or stores the constants 0 and 255, so `Uint8Array` wrap-around never comes into play.
- The order between `resolve` and the later unbinding and disposal is not modelled. Those calls are engine plumbing.
