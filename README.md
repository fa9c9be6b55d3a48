# DodgeFruit core, modelled in Dafny

DodgeFruit is a small touchscreen game. Fruit sprites spawn and move along their paths, and a touch point has to avoid them. Touching a fruit, or lifting the finger, ends the game. The survival time is then appended to a plain-text history file, which is later read back for a high score and a play count. A separate Python script converts RGBA images into the game's `.spr` sprite format.

This project models and proves four pieces of that code. Each has its own module:

- `ImageConverter` (`image_converter.dfy`) is the sprite converter.
  - `ConvertImage` is the script's loop over `range(width*height)`. It builds the output text one token at a time.
  - It is proved equal to `Emitted`, which follows the loop's own order. For a non-zero width it is also equal to `Layout`, an independent row-by-row definition.
  - The output is read back by the tokenizer and decimal reader in `Text`. Each token is decoded again by `DecodeToken`.
- `Text` (`text.dfy`) holds the string machinery the converter relies on:
  - Python's `'%02x'` formatting and `int(s, 16)` parsing;
  - `str()` of an integer and its decimal reader;
  - splitting text at whitespace, as a reader of the `.spr` format does.
- `PlayHistory` (`play_history.dfy`) models `writeTime`, `playerHighScore` and `gameCount`.
  - These are methods of a `HistoryFile` class whose field `entries` is the file's contents.
  - Each entry is either a number or a token the stream cannot read.
  - `ReadValues`, `HighScoreOf` and `GameCountOf` state what the readers compute.
- `Gameplay` (`gameplay.dfy`) models `makeRandomFruit` and the bookkeeping of `doGameplayLoop`.
  - It covers the fruit list, the `gameOver` flag and the three timers.
  - The loop is driven by a finite trace of `TickInput` values. Each holds the touch reading, the clock readings and the random draws for one pass.
  - `GameLoop` is the `while` loop and is proved equal to the recursive `Play`.
  - `StepFruits` is the inner loop over the fruit.
  - `DoGameplayLoop` runs the loop, releases the fruit and writes the time to the history.

The fruit's `stepPath` and the sprite's `isPointWithin` are not part of this model. They come in as the function parameters `stepPath` and `within`.

Two details follow the code as written:

- The spawn check compares against the literal `3` (main.cpp:221), not against `TIME_BETWEEN_FRUITS`, which is defined as `2.0` (main.cpp:8). The model has both constants, `SpawnDelay` and `TimeBetweenFruits`, and only the first is used.
- The spawn position is the raw pair of random draws, with no clamping to the screen.

## Model

| member | source | states |
|---|---|---|
| ImageConverter.EncodePixel | ImageConverter.py:17-22 | an opaque pixel gives `r*65536 + g*256 + b`; any other alpha gives -1 whatever the colour; every value lies in -1..16777215, and it is -1 exactly when alpha is not 255 |
| Text.DigitsValue | ImageConverter.py:20 | the defining function (no contract of its own) of `int(s, 16)` and of reading decimal text: the value of a digit string in a base, most significant digit first |
| Text.HexRgbValue | ImageConverter.py:20 | the `%02x%02x%02x` string read in base 16 is `r*65536 + g*256 + b` |
| Text.Hex2 | ImageConverter.py:20 | `%02x` of a channel is exactly two hex digits |
| Text.NatDigits | ImageConverter.py:20 | `str()` of a non-negative integer is a non-empty string of decimal digits, with no leading zero unless the number is 0 |
| Text.HexRgb | ImageConverter.py:20 | `'%02x%02x%02x' % (r, g, b)` is six hex digits, two per channel |
| Text.NatDigitsValue | ImageConverter.py:20 | the decimal digits of `n` read back in base 10 give `n` |
| Text.DecRoundTrip | ImageConverter.py:20-24 | reading back the decimal text of any integer, -1 included, gives that integer |
| Text.DecStr | ImageConverter.py:20-24 | a written value is non-empty and contains no whitespace, so it stays a single token |
| Text.TokensAppend | ImageConverter.py:24-26 | text that ends in whitespace splits into tokens independently of what is appended to it |
| Text.TokensOfPiece | ImageConverter.py:24-26 | a value followed by its space, and possibly by a newline, is exactly one token |
| ImageConverter.DecodeEncode | ImageConverter.py:20-22 | dividing a token by 65536 and 256 recovers the channels of an opaque pixel; a non-opaque pixel decodes as transparent |
| ImageConverter.EncodeInjective | ImageConverter.py:20 | two opaque pixels with the same token have the same colour |
| ImageConverter.DivModUnique | ImageConverter.py:20 | quotient and remainder are the unique ones, which is what channel recovery relies on |
| ImageConverter.ConvertImage | ImageConverter.py:16-26 | the loop writes the text of `Emitted`; its tokens are the pixels' values in row-major order, one per pixel; for a non-zero width the text is the row layout; it holds `height` newlines |
| ImageConverter.Piece | ImageConverter.py:24-26 | the defining function (no contract of its own) of what one pixel writes: its token, a space, and a newline after every `width`-th token |
| ImageConverter.Emitted | ImageConverter.py:16-26 | the defining function (no contract of its own) of the text the loop has written after `n` pixels: each pixel's token and a space, and a newline after every `width`-th token |
| ImageConverter.TokenTexts | ImageConverter.py:16-24 | the expected token list has one entry per pixel, the `k`-th being the decimal text of pixel `k`'s value |
| ImageConverter.EmittedTokens | ImageConverter.py:16-24 | the text written for the first `n` pixels splits into exactly their `n` values, in order |
| ImageConverter.EmittedEndsInSpace | ImageConverter.py:24-26 | the text written so far is empty or ends in whitespace |
| ImageConverter.RowBreak | ImageConverter.py:25-26 | after a token the converter writes either nothing or one newline |
| ImageConverter.ColumnIsMod | ImageConverter.py:25 | counting columns without division agrees with `(i+1) % width` |
| ImageConverter.RowBreakIsLineEnd | ImageConverter.py:25-26 | the newline test `(i+1) % width == 0` is the end of a row of `width` tokens |
| ImageConverter.LayoutSnoc | ImageConverter.py:24-26 | one more pixel on the row layout appends its token and, after the `width`-th in a row, a newline |
| ImageConverter.EmittedLayout | ImageConverter.py:16-26 | the loop's output for the first `n` pixels equals the row-by-row layout of those pixels |
| ImageConverter.LayoutNewlines | ImageConverter.py:25-26 | a `width*height` image laid out in rows has exactly `height` newlines |
| ImageConverter.RowTextNoNewline | ImageConverter.py:24 | a row's tokens hold no newline |
| ImageConverter.RowTextTokens | ImageConverter.py:24 | a row splits into its pixels' values |
| ImageConverter.CountNewlinesAppend | ImageConverter.py:25-26 | newline counts add up over concatenation |
| ImageConverter.ReadSpr | ImageConverter.py:24-26 | the defining function (its ensures only unfold its own comprehension) of the reference reader of the `.spr` text these lines write: one parse result per whitespace-separated token; what reading the output back gives is proved by `ConvertRoundTrip` |
| ImageConverter.ConvertRoundTrip | ImageConverter.py:16-26 | reading the output back gives `width*height` integers; the `k`-th is pixel `k`'s value and decodes to its colour when opaque, to transparent otherwise |
| PlayHistory.ReadValues | main.cpp:340-345 | a reader extracts the values of the entries before the first unreadable one, and no more |
| PlayHistory.HighScoreOf | main.cpp:336-350 | the defining function (no contract of its own) of what `playerHighScore` returns: the running maximum from 0 of the values read |
| PlayHistory.GameCountOf | main.cpp:353-366 | the defining function (no contract of its own) of what `gameCount` returns: the number of values read |
| PlayHistory.MaxFromZero | main.cpp:339-345 | the running maximum from 0 is at least 0 and at least every value; it is either 0 or one of the values |
| PlayHistory.ReadValuesAppend | main.cpp:327-331 | an appended record becomes the last value read if every earlier entry was readable; otherwise the readers never see it |
| PlayHistory.HighScoreAfterWrite | main.cpp:327-345 | after a write the high score is the larger of the old one and the new time, unless an unreadable entry hides the new record |
| PlayHistory.GameCountAfterWrite | main.cpp:327-366 | after a write the game count rises by one, unless an unreadable entry hides the new record |
| PlayHistory.EmptyHistoryReadsZero | main.cpp:336-366 | an empty history, or one whose first record does not parse, gives high score 0 and game count 0 |
| PlayHistory.NegativeHistoryReadsZero | main.cpp:339-345 | a history holding only negative values gives high score 0 |
| PlayHistory.ReadIgnoresTail | main.cpp:340-361 | nothing after an unreadable record affects the values, the high score or the count |
| PlayHistory.HistoryFile.constructor | main.cpp:327-331 | a history file that was never written holds no records |
| PlayHistory.HistoryFile.WriteTime | main.cpp:327-331 | exactly one record is appended at the end and earlier ones are unchanged; on a fully readable history the count rises by one and the high score becomes the larger of the old one and `t` |
| PlayHistory.HistoryFile.PlayerHighScore | main.cpp:336-350 | the loop returns the running maximum from 0 of the values read: at least 0, at least each value read, and 0 or one of them |
| PlayHistory.HistoryFile.GameCount | main.cpp:353-366 | the loop returns the number of records before the first unreadable one |
| PlayHistory.ReadPrefixStep | main.cpp:340-345 | reading one more readable record extends the values read by it |
| PlayHistory.ReadPrefixDone | main.cpp:340-361 | a reader that stops at index `i` has read exactly the first `i` records |
| Gameplay.ChooseKind | main.cpp:254 | the defining function (no contract of its own) of the kind pick: table entry `draw % 4` of lemon, apple, watermelon, tangerine |
| Gameplay.ChooseSpeed | main.cpp:260 | the speed `1 + (draw % 10)/10.0` lies in [1, 2) |
| Gameplay.MakeRandomFruit | main.cpp:250-268 | the kind is table entry `draw % 4`; the speed is the `draw % 10`-th of the ten steps 1.0,...,1.9, so it lies in [1, 2); the position is the raw draw pair; the anchor is centred and the scale is 2 |
| Gameplay.SpeedFromTable | main.cpp:259-260 | `1 + (draw % 10)/10` is one of the ten speeds, from 1.0 to 1.9 |
| Gameplay.EverySpeedReached | main.cpp:259-260 | each of the ten speeds is produced by some draw |
| Gameplay.KindChoiceCoversTable | main.cpp:252-254 | any four consecutive draws pick the four kinds, each once |
| Gameplay.Start | main.cpp:185-190 | the defining function (no contract of its own) of the state at loop entry: no fruit, not over, time 0, `lastTime` the first clock reading and the last spawn 4 before the second |
| Gameplay.Tick | main.cpp:195-230 | the defining function (no contract of its own) of one loop pass; its properties are `TickAppendsAtMostOne` and `TickGameOver` |
| Gameplay.Play | main.cpp:194-234 | the defining function (no contract of its own) of the state the `while` loop ends in: ticks run while the sample is touched and the game is not over |
| Gameplay.TickCount | main.cpp:194-234 | the loop runs at most one tick per sample of the trace, and none exactly when its condition fails at once |
| Gameplay.Continues | main.cpp:194 | the defining predicate (no contract of its own) of the `while` condition: a sample remains, it is touched, and the game is not over |
| Gameplay.MousePos | main.cpp:195 | the defining function (no contract of its own) of `Vector2(xpos, ypos)` from the touch reading |
| Gameplay.Moved | main.cpp:210 | the defining function (no contract of its own) of `f->stepPath(dt)`: the fruit with its position replaced by the path's next point |
| Gameplay.AnyHit | main.cpp:213-215 | the defining predicate (no contract of its own) of the hit test: some fruit's sprite contains the touch point |
| Gameplay.StepAll | main.cpp:208-210 | the defining function (its ensures only unfold its own comprehension) of the range-for that steps every fruit; its promises are proved by `StepFruits`, `TickAppendsAtMostOne` and `TickGameOver` |
| Gameplay.StepFruits | main.cpp:207-219 | the inner loop steps every fruit and reports a hit exactly when some stepped fruit contains the touch point |
| Gameplay.RunTick | main.cpp:195-230 | one loop pass changes the session exactly as `Tick` describes |
| Gameplay.ResumeStep | main.cpp:194-231 | running one tick and then the rest of the trace ends as running the whole trace |
| Gameplay.GameLoop | main.cpp:180-231 | the loop ends in the session `Play` gives, after `TickCount` ticks; it stops at the end of the trace, at a sample with no touch, or after a collision |
| Gameplay.DoGameplayLoop | main.cpp:175-247 | every fruit is released together after the loop, and exactly one record, the final survival time, is appended to the history |
| Gameplay.TickAppendsAtMostOne | main.cpp:205-224 | one tick keeps every fruit at its index, changing only its position; it appends one new fruit at the end exactly when more than 3 has passed since the last spawn, and then resets the spawn time |
| Gameplay.TickGameOver | main.cpp:207-217 | a tick sets `gameOver` exactly when a fruit present at its start, once stepped, contains the touch point; a fruit spawned in that tick is not tested |
| Gameplay.StopsAfterCollision | main.cpp:194-215 | once a tick reports a collision, no further tick runs, whatever the trace still holds |
| Gameplay.PlayOnlyGrows | main.cpp:182-224 | over a whole game the fruit list never shrinks and grows by at most one per tick; every fruit keeps its index, kind, speed, anchor and scale |
| Gameplay.TicksAreTouched | main.cpp:194 | every tick that runs consumes a sample in which the screen was touched |
| Gameplay.FirstTickSpawns | main.cpp:185-224 | the spawn time starts 4 before the start, so the first tick spawns a fruit and cannot end the game |
| Gameplay.PlayerTimeNeverDecreases | main.cpp:207-227 | with a clock that never runs backwards, the accumulated survival time never decreases |

## Left out

- Drawing, the screens and touch polling are left out, because they are UI. This covers the `LCD` calls, the menu, stats, how-to, credits and game-over screens, the character sprite and `waitForBackButtonPress`. The touch reading the loop condition uses is part of each `TickInput`.
- `waitForTouch`, `waitForNoTouch`, `waitForTap` and `Sleep` are left out, because they are busy-waits on hardware. `TimeNow()` readings are inputs in `Clock`.
- `Random.RandInt()` is a foreign generator, so its results are inputs (`Draws`) and are taken to be non-negative. C++ does not fix the order in which the two draws of `Vector2(RandInt(), RandInt())` are evaluated, so `Draws` names the x and y results directly.
- `Fruit`, `Sprite` and `Vector2` (custom_libraries) are not part of this model. `stepPath` and `isPointWithin` are function parameters. The `Fruit` constructor is taken to store its kind, speed and position as given.
- Gameplay.Moved: `stepPath` is taken to depend only on the fruit's kind, speed, position, anchor and scale and on `dt`, and to change only the fruit's position. The `SameFruit` clauses of `TickAppendsAtMostOne` and `PlayOnlyGrows` rest on this; a hidden path state of the game's `Fruit` is not modelled.
- Float timing arithmetic is left out. Times are `real`, so `float` rounding is not modelled.
- Gameplay.ChooseSpeed: the speed `1 + (k % 10)/10.0` is computed in floating point in the game, so 1.1, 1.2 and so on are not exact there. `SpeedTable` holds the exact decimals.
- Gameplay.MakeRandomFruit: the scale 2 assumes that the sprite's `scale(2)` sets the scale rather than multiplying it. Sprite.cpp is not part of this model.
- Gameplay.Play: the trace of `TickInput` values is finite, and its end counts as the finger being lifted. In the game, a touch that is held while nothing hits keeps the loop running forever, and no record is written. The model always ends and writes one.
- Opening, closing and failing files, and the number formatting and parsing of `ofstream <<` / `ifstream >>`, are left out. The file is a sequence of entries, each readable or not, and a missing file reads as empty.
- PlayHistory.HistoryFile.WriteTime: stores `t` exactly. The six-significant-digit text that `<< t` writes is not modelled.
- PlayHistory.HistoryFile.GameCount: its result is a `nat`, so the overflow of the C++ `int` counter is not modelled.
- PIL's `Image.open`, `convert('RGBA')` and `getdata` are a foreign library, and the hard-coded paths and the `file` handle are I/O. The pixel list and width are inputs, and channels are in 0..255 by type. The output file is the returned string.
- ImageConverter.ConvertImage: the row layout and the newline count are stated only for a non-zero width. A zero-width image has no pixels and the converter writes nothing.
