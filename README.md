# NotCuphead framebuffer and main-loop rules, in Dafny

This project models two parts of an interrupt-driven arcade shooter for MINIX
(x86, little-endian):

* **The double-buffered framebuffer** of `src/devices/graphics/graphics.c`
  (module `Graphics`, with byte helpers in module `Bytes`). The globals `info`,
  `video_buffer` and `write_buffer` become the class `FrameBuffer`. `info` is
  the `ModeInfo` record of X resolution, Y resolution and bits per pixel, and
  the two buffers are byte arrays. Colour conversion (`fix_color`) is a pure
  function. Pixel writes, the zero-filled back-buffer allocation, the frame
  copy and sprite blitting are methods. Pixel writes and sprite blitting are
  proved against specification functions on the buffer contents. The
  allocation and the frame copy state the new contents directly in their
  contracts.
* **The per-notification rules of `proj_main_loop`** in `src/main.c` (module
  `MainLoop`). The loop's locals and the globals it changes (`mode`, `renew`,
  the cursor, `monsters`) become the class `Session`. Each rule is a method
  that takes the scancode, packet fields or tick counter as input:
  * the key-flag chain;
  * the cursor accept/reject rule;
  * the GAME-tick counters and cadences;
  * the fire cooldown;
  * the resolution pick with `change_mode` and the enemy-pool refill.

  Each method is tied to a pure function (`KeyFlags`, `MovedCursor`,
  `EndOfTick`, `Fires`, `PickMode`), and the lemmas are proved about those
  functions.

What the code does, and where it differs from a natural reading of the design,
is modelled as written:

* The buffer size is `X*Y*(bpp+7)/8`. It is evaluated left to right, so it is
  at least `X*Y*ceil(bpp/8)`, which is the stride times the pixel count. It is
  larger unless `X*Y*((bpp+7) mod 8) < 8`; for example, it is equal when
  bpp+7 is a multiple of 8.
  `ScreenFitsBuffer` proves that the size always covers the pixel count.
* `vg_draw_pixel` tests `x > XRes || y > YRes`, not `>=`. So column `XRes`
  and row `YRes` are accepted. Pixel `(XRes, y)` lands on `(0, y+1)`
  (`EdgeColumnIsNextRow`). The slack from the size formula absorbs the
  off-screen row for the usual depths (`GuardedPixelFits`), but not in a
  1-bpp mode (`GuardAdmitsOverrun`).
* `counter_timer % ONE_SEC*2 == 0` means `(counter_timer % 30) * 2 == 0`. So
  the enemy-spawn flag and the multiplier step come every 30 ticks, not every
  60 (`EndOfTick`, `SpawnFlagEveryOneSecond`).
* `draw_xpm` reads a 4-byte-per-pixel image through a `uint8_t*`. Each colour
  it passes is therefore one byte of the image. Such a colour is never a
  transparency key, and it is drawn as a blue-only colour
  (`SpriteByteIsBlueOnly`).

## Model

| member | source | states |
|---|---|---|
| `Bytes.LittleEndian` | src/devices/graphics/graphics.c:75-77 | the bytes memcpy copies out of an integer: n of them, least significant first |
| `Bytes.FromLittleEndian` | src/devices/graphics/graphics.c:75-77 | the value n little-endian bytes denote is below 256^n |
| `Bytes.DecodeEncode` | src/devices/graphics/graphics.c:75-77 | reading back the n bytes written for a value below 256^n gives that value |
| `Bytes.EncodeDecode` | src/devices/graphics/graphics.c:75-77 | encoding the value of a byte string gives back the same bytes |
| `Graphics.FixColor` | src/devices/graphics/graphics.c:85-113 | at 15 bpp the result is below 0x8000 and its three 5-bit fields are the top 5 bits of red, green and blue; at 16 bpp it is below 0x10000 and its 5-6-5 fields are the top 5/6/5 bits; at 24 and 32 bpp it is the colour with its top byte dropped; at any other depth it is 0 |
| `Graphics.FixColorFits` | src/devices/graphics/graphics.c:72-77 | the encoded colour always fits in the (bpp+7)/8 bytes memcpy copies, so the copy never truncates it |
| `Graphics.DrawnPixel` | src/devices/graphics/graphics.c:66-81 | a rejected pixel (beyond XRes or YRes, or a transparency key) leaves the buffer as it was; the buffer length never changes |
| `Graphics.DrawnPixelEffect` | src/devices/graphics/graphics.c:72-77 | an accepted write changes only the stride bytes at (XRes*y+x)*stride, and those bytes read back, little-endian, as fix_color of the colour |
| `Graphics.TransparentLeavesBuffer` | src/devices/graphics/graphics.c:69-70 | none of the eight colour keys ever changes the buffer, at any coordinate |
| `Graphics.EdgeColumnIsNextRow` | src/devices/graphics/graphics.c:66-74 | column XRes passes the guard and writes exactly what pixel (0, y+1) would write |
| `Graphics.ScreenFitsBuffer` | src/devices/graphics/graphics.c:51-59 | the size shared by mapping, allocation and copy is at least X*Y*stride |
| `Graphics.OnScreenPixelFits` | src/devices/graphics/graphics.c:66-77 | every pixel with x < XRes and y < YRes lies inside the buffer, in every mode |
| `Graphics.GuardedPixelFits` | src/devices/graphics/graphics.c:66-77 | at 8, 15, 16, 24 or 32 bpp with XRes >= 2 and YRes >= 8, every coordinate the guard accepts, including column XRes and row YRes, lies inside the buffer |
| `Graphics.GuardAdmitsOverrun` | src/devices/graphics/graphics.c:66-77 | in a 2x2 mode at 1 bpp the guard accepts pixel (2, 2), whose byte lies past the end of the buffer |
| `Graphics.DrawnRow` | src/devices/graphics/graphics.c:129-132 | specification of draw_xpm's inner loop, columns drawn left to right at (x+j, y+i) wrapped to 16 bits; its own contract keeps the buffer length, and what it draws is stated by `PixelDrawn`, `RowKeepsApart` and `SpriteShown` |
| `Graphics.DrawnRows` | src/devices/graphics/graphics.c:128-133 | specification of draw_xpm's outer loop, rows drawn top to bottom; its own contract keeps the buffer length, and what it draws is stated by `SpriteShown` and `UntouchedBytesKept` |
| `Graphics.PixelDrawn` | src/devices/graphics/graphics.c:129-131 | for an on-screen sprite, drawing column j of row i puts fix_color of image byte i*width+j into the bytes of screen pixel (x+j, y+i) |
| `Graphics.RowKeepsApart` | src/devices/graphics/graphics.c:129-132 | drawing columns j0 to j1 of a row leaves every byte range clear of those columns' pixels unchanged |
| `Graphics.RowsKeepApart` | src/devices/graphics/graphics.c:128-133 | drawing rows i0 to i1 leaves every byte range clear of those rows' pixels unchanged |
| `Graphics.CellsApart` | src/devices/graphics/graphics.c:74-77 | in an on-screen sprite, the bytes of a pixel lie wholly before those of every pixel after it in row-major order, so no later write overlaps an earlier one |
| `Graphics.SpriteShown` | src/devices/graphics/graphics.c:117-136 | for a sprite lying wholly on screen, after draw_xpm the bytes of screen pixel (x+j, y+i) read back, little-endian, as fix_color of image byte i*width+j, for every i < height and j < width |
| `Graphics.UntouchedBytesKept` | src/devices/graphics/graphics.c:117-136 | wherever the sprite lies (wrapped or clipped), draw_xpm leaves every byte outside its pixels' byte ranges as it was |
| `Graphics.ClippedRowLeavesBuffer` | src/devices/graphics/graphics.c:128-133 | a sprite row whose screen y exceeds YRes changes nothing |
| `Graphics.ClippedSpriteLeavesBuffer` | src/devices/graphics/graphics.c:117-136 | a sprite whose rows all land below the screen (after the 16-bit wrap) leaves the back buffer untouched |
| `Graphics.SpriteByteIsBlueOnly` | src/devices/graphics/graphics.c:120-130 | a one-byte colour from the image is never a transparency key; it encodes to byte/8 at 15 and 16 bpp and to itself at 24 and 32 bpp |
| `Graphics.FrameBuffer.constructor` | src/devices/graphics/graphics.c:3-5 | the globals start with a zeroed mode; the two NULL buffer pointers, which are equal in C, are stood for by two distinct zero-length arrays |
| `Graphics.FrameBuffer.SetBuffer` | src/devices/graphics/graphics.c:21-49 | info is cleared; a failed mode query returns 1 with info zero; otherwise info is the queried mode and video memory of BufferSize bytes is mapped |
| `Graphics.FrameBuffer.AllocateWriteBuffer` | src/devices/graphics/graphics.c:51-59 | returns a fresh back buffer of BufferSize bytes, all zero, distinct from video memory |
| `Graphics.FrameBuffer.SwitchBuffers` | src/devices/graphics/graphics.c:61-64 | video memory's first BufferSize bytes equal the back buffer's; the rest and the back buffer are unchanged, so a second call changes nothing more |
| `Graphics.FrameBuffer.DrawPixel` | src/devices/graphics/graphics.c:66-81 | returns 0 and leaves the back buffer equal to DrawnPixel of the old contents |
| `Graphics.FrameBuffer.DrawXpm` | src/devices/graphics/graphics.c:117-136 | returns 0 and leaves the back buffer equal to all rows of the image drawn in row-major order, so `SpriteShown` and `UntouchedBytesKept` describe its result |
| `MainLoop.KeyFlags` | src/main.c:362-379 | 0x1E/0x9E set/clear A, 0x20/0xA0 set/clear D, 0x11/0x91 set/clear W; a flag changes only on its own two codes |
| `MainLoop.KeyFlagsAtMostOne` | src/main.c:362-379 | a scancode changes at most one flag; Enter (0x1C) changes none |
| `MainLoop.KeyFlagsIdempotent` | src/main.c:362-379 | repeating a scancode changes nothing further |
| `MainLoop.MovedCursor` | src/main.c:389-392 | the move (x+dx, y-dy) is taken exactly when it lies in 0 < x, x+7 < XRes, 0 < y <= YRes; otherwise the cursor stays |
| `MainLoop.RegionPreserved` | src/main.c:209-212 | a cursor inside the region stays inside it through any run of packets |
| `MainLoop.CRem` | src/main.c:317-331 | C's truncating remainder agrees with the mathematical one on non-negative counters and tests divisibility exactly for every counter |
| `MainLoop.EndOfTick` | src/main.c:317-337 | the spawn flag and multiplier step fire exactly when counter % 30 == 0 (the latter only while still in GAME); the score steps exactly when counter % 20 == 0; renew ends below 5; with renew in [0,5), enemies are revived exactly when renew was 4 at a 30-tick boundary |
| `MainLoop.SpawnFlagEveryOneSecond` | src/main.c:317-319 | at counter 30, not a multiple of ONE_SEC*2, the spawn flag is already set |
| `MainLoop.RenewCycle` | src/main.c:320-326 | over any run of consecutive GAME ticks, renew is (start + boundaries) mod 5 and spawn_dead_enemies runs (start + boundaries) div 5 times |
| `MainLoop.FireNeedsTicks` | src/main.c:406-413 | from a non-negative cooldown, a packet fires only when the cooldown plus the GAME ticks since then exceed 30 |
| `MainLoop.ShotsAtLeast31TicksApart` | src/main.c:406-413 | two shots are separated by at least 31 GAME ticks |
| `MainLoop.PickMode` | src/main.c:214-261 | the modes are tried in the order 0x14C, 0x115, 0x110, 0x11A and the first hit wins; with no hit there is no mode |
| `MainLoop.Session.constructor` | src/main.c:279-287 | the loop starts with all key flags clear, both counters 0, create_enemy false, and mode 0x110 |
| `MainLoop.Session.OnScancode` | src/main.c:362-379 | the key flags become KeyFlags of the old flags and the scancode |
| `MainLoop.Session.OnPacketMove` | src/main.c:389-392 | the cursor becomes MovedCursor in the current mode's resolution and stays inside the region if it was |
| `MainLoop.Session.BeginGameTick` | src/main.c:306-307 | unvulnerability and bullet_cooldown each rise by exactly 1 |
| `MainLoop.Session.EndGameTick` | src/main.c:317-337 | the outcome is EndOfTick for the counter, renew is its new renew, and create_enemy is false again |
| `MainLoop.Session.OnPacketFire` | src/main.c:402-415 | when Fires holds, a bullet from (player.x+75, player.y+50) toward the cursor with speed 3 is created and the cooldown is reset to 0; otherwise nothing changes |
| `MainLoop.Session.ChangeMode` | src/main.c:137-157 | mode takes the new value even when a later step fails; a failing vg_exit returns 1 and leaves the framebuffer untouched; a failing mode query returns 1 with info zeroed and both buffers as they were; otherwise both buffers are fresh, of the new size, the back buffer is zero, and the status is set_graphic_mode's |
| `MainLoop.Session.ResetMonsters` | src/main.c:218-222 | all ten slots hold createEnemy(5, 5, 15+i, 15+i, 3, 3, dead) |
| `MainLoop.Session.OnResolutionPacket` | src/main.c:213-263 | in the resolution state, a hit on an option sets the first-hit mode, refills the pool, leaves the framebuffer as change_mode's three outcomes say (on success a valid framebuffer of the new mode's size, ready for the next frame copy), and ends the selection loop; no hit changes nothing |

## Left out

- `set_graphic_mode` (VBE function 02h, "Set VBE Mode", of the VESA BIOS Extension Core Functions) is a BIOS call; `ChangeMode` takes its result as the input `setModeOk`.
- `vbe_get_mode_info` is a firmware query; `SetBuffer` takes its answer as an `Option<ModeInfo>`. The failures of `sys_privctl` and `vm_map_phys` end the process through `panic` and are not modelled. The contents of mapped video memory are unspecified.
- FrameBuffer.constructor: before the first mode is set, C's `video_buffer` and `write_buffer` are both NULL and so equal. The model uses two distinct zero-length arrays, so it does not capture that aliasing; no byte can be written through either.
- `vg_exit` is a device call; `ChangeMode` takes its result as the input `exitOk`.
- AllocateWriteBuffer: a failing `malloc` (return 1) is not modelled; the method always returns 0.
- DrawPixel: an accepted write whose bytes run past the end of `write_buffer` is undefined behaviour in C, and the model skips it. `GuardedPixelFits` shows that this cannot happen for the usual depths.
- DrawPixel: above 32 bpp, memcpy copies more bytes than the 4-byte `new_color` holds. The model writes zeros for the extra bytes.
- `BufferSize` is computed with unbounded integers. C computes it in `int`, which would overflow once X*Y*(bpp+7) reaches 2^31. No VBE mode gets that large.
- `xpm_load` is an image decoder; the image is an input (`Xpm`), and a failed load is not modelled.
- The interrupt and IPC plumbing is not modelled: `driver_receive`, `is_ipc_notify`, `timer_int_handler`, `kbc_ih`, `mouse_ih`, `mouse_bytes_sync`, `mouse_generate_packet` and interrupt subscription. The step methods take the counter, scancode or packet fields directly.
- `score += 10*multiplier` and `multiplier += 0.1` are floating-point updates. Only their cadence is modelled (`multiplierStep`, `scoreStep`).
- `update_player_logic` receives `&unvulnerability` and may change it and the state. The tick is split into `BeginGameTick` and `EndGameTick` around that call, and the call itself is not modelled.
- `update_bullet_logic`, `update_enemy_logic`, `spawn_dead_enemies`, `createBullet` and `addBullet` are callees that are not part of this model. `EndGameTick` reports the flags passed to or gating them, and `OnPacketFire` returns the bullet that would be created. The bullet list and the enemy behaviour are not modelled.
- After a mode change, `createPlayer` and `createMouseCursor` place the player and cursor from constants in headers that are not part of this model. Their recreation is not modelled, and `OnResolutionPacket` leaves the cursor where it was.
- The button hit-tests (`res14C` and the others, `playButton`, `menuButton` and the rest) and the state transitions they make are not modelled. Their answers are inputs, and `state` is read as those handlers leave it.
- `processScanCode` (scoreboard name entry), the draw functions and `draw_sprite` are callees that are not part of this model. So are `open_devices`, `close_devices`, `sleep`, `printf` and the `lcf_*` calls, and `freeInitialSprites` and `loadAllSprites(mode)`, which `change_mode` calls after a successful mode switch to reload the sprites.
- The memory that is leaked by `createEnemy` and by reallocating in `change_mode` is not modelled.
- `enemy.h` is not part of this model. The fifth and sixth `createEnemy` arguments are recorded as `width` and `height`, and the sprite argument is left out.
- `renew` is defined outside `main.c`. The model starts it at 0 and assumes that only the GAME tick changes it.
