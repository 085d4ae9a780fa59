# StreamToTCP telemetry decoders, in Dafny

This project models the core of `readers/StreamToTCP.py`. That program relays
rocket-tracking telemetry read from two serial radios to a TCP client (a
COSMOS/OpenC3 ground station). On every turn of its main loop it does four things:

- it reads one line from each serial port;
- it recognises the tracker's GPS report (`@ GPS_STAT`) and link-health report
  (`@ RX_NOMTK`) on the first line, and the Raven altimeter report (`RAV`) on
  the second;
- it cleans and tokenizes each recognised record, and refuses it as a whole
  when a selected token is not a number (`is_garbled`);
- it packs the accepted values into a binary frame and sends it: tag 12 (GPS,
  `"ididdiiiiiiii"`), tag 13 (link health, `"idiid"`) or tag 14 (Raven,
  `"idiiiiiiiidiiiiii"`).

The project has five modules:

- `Text` holds the Python string operations the decoders use, each with
  Python's own semantics:
  - `str.index` is the first occurrence;
  - `str.replace(p, '')` deletes non-overlapping copies from left to right;
  - `re.sub('[a-z]', '', s)` deletes a character range;
  - `strip`, `split()`, `" ".join` and `split(" ")` are modelled as written.
- `Numbers` holds what `float()` and `int()` accept and the values they give,
  held as exact rationals. It also builds the time of day from a time token.
- `Frames` holds the typed values handed to `struct.pack`. It models the 32-bit
  range check that makes `struct.pack` raise.
- `StreamToTcp` holds the three decoders, each split into its stages: cut after
  the marker, clean, tokenize, count and check, then convert and pack.
- `MainLoop` holds the dispatch of one loop turn (`Serve`, specified by
  `Iteration`) and the loop over a finite feed of line pairs (`Run`, specified
  by `Transcript`).

A decoder has three possible outcomes:

- `Packed(frame)`: a frame is produced.
- `Rejected`: the source's `return 0`.
- `Fault`: an exception escapes.

Within the number grammar the model gives `float()` and `int()` (a sign,
ASCII digits and at most one `.`; see "## Left out"), the code reaches `Fault`
after a token has already passed `is_garbled`, in three places:

- `int()` is applied to a token with a `.`;
- `float()` is applied to one of the three slices of the time token and
  refuses it. This happens for every token of at most four characters, whose
  seconds slice `t[4:10]` is empty. It also happens for longer tokens whose
  slice is a lone `.` or a sign and a `.`, such as `1234.` and `-.123`;
- `struct.pack` gets an `i` value outside the 32-bit range.

Nothing in the program catches these exceptions, so the main loop and the
program end. For each decoder, the lemmas named `...Faults`, `...TimeFault`,
`...PacketRange` and `...RangeFault` give inputs on which it raises; the two
slice cases of `float()` are `TimeSecondsDot` and `TimeHoursDot`.

## Model

| member | source | states |
|---|---|---|
| Numbers.IntegerIsDecimal | readers/StreamToTCP.py:16-22 | every token `int()` accepts also passes `is_garbled`, with the same value; among tokens that pass `is_garbled`, `int()` refuses exactly those containing a `.` |
| Numbers.DecimalGrammar | readers/StreamToTCP.py:16-22 | `is_garbled` is false exactly for an optional sign followed by digits and at most one `.`, with at least one digit |
| Numbers.DecimalWholePart | readers/StreamToTCP.py:16-22 | the value `float()` gives has the sign of the token, and its magnitude lies between the digits before the `.` and that plus one |
| Numbers.ShortIntegerBound | readers/StreamToTCP.py:68-96 | `int()` of a token of at most nine digits fits in 32 bits, so only longer tokens make `struct.pack` raise |
| Numbers.TimeOf | readers/StreamToTCP.py:61-65 | the time is built from three slices of the token, each passed to `float()`; it is undefined (the code raises) whenever the token has at most four characters |
| Numbers.Slice | readers/StreamToTCP.py:61-63 | Python slicing clamps both bounds to the length of the string |
| Numbers.ClockTime | readers/StreamToTCP.py:61-65 | a well-formed `hhmmss[.sss]` token passes `is_garbled`; its time is 3600·hh + 60·mm + ss and lies in [0, 86400) |
| Numbers.SecondsSlice | readers/StreamToTCP.py:63 | the seconds slice `t[4:10]` of a clock token is a number between its whole seconds and that plus one |
| Numbers.TimeSecondsDot | readers/StreamToTCP.py:61-65 | `1234.` passes `is_garbled`, yet `float()` refuses its seconds slice `.` |
| Numbers.TimeHoursDot | readers/StreamToTCP.py:61-65 | `-.123` passes `is_garbled`, yet `float()` refuses its hours slice `-.` |
| Text.FirstIndex | readers/StreamToTCP.py:27 | `data.index(p)` is an occurrence of `p` with no earlier occurrence |
| Text.FirstIndexAfter | readers/StreamToTCP.py:27-28 | when no copy of the marker starts before `pre` ends, `index` lands right after `pre` |
| Text.Remove | readers/StreamToTCP.py:33 | deleting a non-empty pattern never lengthens the string |
| Text.RemoveAbsent | readers/StreamToTCP.py:33 | `replace(p, '')` leaves text that does not contain `p` unchanged |
| Text.RemoveFirst | readers/StreamToTCP.py:33 | the first occurrence of `p` is deleted, the text before it is kept as is, and the scan resumes right after it |
| Text.RemoveKeepsChars | readers/StreamToTCP.py:33 | `replace(p, '')` introduces no character that was not there |
| Text.RemoveCharGone | readers/StreamToTCP.py:33 | `replace(c, '')` of one character leaves no copy of it |
| Text.RemoveAllKeepsChars | readers/StreamToTCP.py:33-40 | a chain of `replace(p, '')` calls introduces no character |
| Text.RemoveAllCharGone | readers/StreamToTCP.py:33-40 | a one-character pattern anywhere in the chain is absent from the result, whatever later patterns delete |
| Text.RemoveAllAbsent | readers/StreamToTCP.py:33-40 | a chain of `replace(p, '')` calls none of whose patterns occurs leaves the text unchanged |
| Text.DropRange | readers/StreamToTCP.py:126-127 | every character `re.sub('[lo-hi]', '', s)` keeps is a character of `s` outside the range |
| Text.DropRangeConcat | readers/StreamToTCP.py:126-127 | the deletion works character by character: it distributes over concatenation, so what stays keeps its order |
| Text.DropRangeOutside | readers/StreamToTCP.py:126-127 | text with no character in the range comes back unchanged |
| Text.Strip | readers/StreamToTCP.py:32 | `strip()` returns text no longer than `s` that neither starts nor ends with whitespace |
| Text.TrimStart | readers/StreamToTCP.py:32 | the removed prefix is all whitespace and the rest does not start with whitespace |
| Text.TrimEnd | readers/StreamToTCP.py:32 | the removed suffix is all whitespace and the rest does not end with whitespace |
| Text.StripSlice | readers/StreamToTCP.py:32 | `strip()` returns the slice of `s` that starts right after its leading whitespace |
| Text.StripTail | readers/StreamToTCP.py:32 | everything after that slice is whitespace |
| Text.StripKeepsChars | readers/StreamToTCP.py:32 | `strip()` introduces no character |
| Text.StripTrimmed | readers/StreamToTCP.py:32 | text that neither starts nor ends with whitespace is its own `strip()` |
| Text.WordsShape | readers/StreamToTCP.py:44 | `split()` yields non-empty words without whitespace, made of characters of the input |
| Text.WordsThen | readers/StreamToTCP.py:44 | `split()` of a word, a whitespace character and the rest yields that word, then the words of the rest |
| Text.WordsOfWord | readers/StreamToTCP.py:44 | `split()` of a single word yields just that word |
| Text.WordsJoin | readers/StreamToTCP.py:44-47 | `split()` gives back the words that `" ".join` put together |
| Text.JoinTrimmed | readers/StreamToTCP.py:44-47 | words joined by spaces neither start nor end with whitespace, and are non-empty when there is a word |
| Text.TokensJoin | readers/StreamToTCP.py:44-47 | tokenizing words joined by single spaces gives back those words |
| Text.StripSpaceThen | readers/StreamToTCP.py:32 | `strip()` removes one leading space from text that is otherwise stripped |
| Text.SplitJoin | readers/StreamToTCP.py:44-47 | `" ".join(ws).split(" ")` gives back `ws` when no word contains a space |
| Text.TokensAreWords | readers/StreamToTCP.py:44-47 | `" ".join(s.split()).split(" ")` is `s.split()`, or `[""]` when `s` is blank |
| Text.TokenChars | readers/StreamToTCP.py:44-47 | every token holds only non-space characters of the input |
| StreamToTcp.RavKept | readers/StreamToTCP.py:53 | `parts.pop(17)` leaves 20 tokens: 0..16 in place, 18..20 shifted down by one |
| StreamToTcp.PackRav | readers/StreamToTCP.py:47-98 | a Raven record is rejected exactly when it does not have 21 tokens or one of the 20 kept tokens is garbled; a frame has tag 14 and the Raven layout |
| StreamToTcp.RavFrame | readers/StreamToTCP.py:60-98 | the conversions never reject; a frame has tag 14 and the Raven layout |
| StreamToTcp.RavPacket | readers/StreamToTCP.py:98 | the Raven frame lists time, hg/pg/un, battery, ang_1, ang_2, vel, agl, rssi and snr in pack order |
| StreamToTcp.DecodeRav | readers/StreamToTCP.py:24-106 | a frame from `pack_RAV` has tag 14 and the Raven layout |
| StreamToTcp.RavLayout | readers/StreamToTCP.py:98 | positions of the 16 Raven fields in the packed value list |
| StreamToTcp.RavFrameFields | readers/StreamToTCP.py:60-98 | each Raven field is the conversion of its token; the gyro tokens are converted but not sent |
| StreamToTcp.RavUnfold | readers/StreamToTCP.py:49-58 | a 21-token record whose kept tokens are all numbers goes on to the conversions, with token 17 dropped |
| StreamToTcp.RavFieldMap | readers/StreamToTCP.py:60-78 | in a Raven frame, field 0 is the time from token 0, fields 1..8 are `int` of tokens 1..8, and field 9 is token 9 / 1000 |
| StreamToTcp.RavTailMap | readers/StreamToTCP.py:84-98 | in a Raven frame, fields 10..13 are `int` of tokens 13..16, rssi is token 18 and snr is token 20 |
| StreamToTcp.RavFrameTail | readers/StreamToTCP.py:84-98 | in a packed Raven frame, fields 10..13 are `int` of `ang_1..agl`, field 14 is rssi and field 15 is snr |
| StreamToTcp.RavIgnoresUnusedTokens | readers/StreamToTCP.py:53-96 | token 17 never matters, and token 19 matters only through whether it is garbled |
| StreamToTcp.RavGyroUnsent | readers/StreamToTCP.py:80-98 | the gyro tokens are parsed with `int()` but not sent: two records that differ only in integer gyro tokens decode alike |
| StreamToTcp.RavFrameGyro | readers/StreamToTCP.py:80-98 | the same for the conversions and the pack: the first three of `gy_1..rssi` matter only through `int()` accepting them |
| StreamToTcp.RavFaults | readers/StreamToTCP.py:55-96 | a record past the garble check still raises when a token in an `int()` slot has a `.` |
| StreamToTcp.RavTimeFault | readers/StreamToTCP.py:55-65 | a record past the garble check still raises when `float()` refuses a slice of its time token |
| StreamToTcp.RavPacketRange | readers/StreamToTCP.py:98 | `struct.pack` raises when a sent Raven integer is outside the 32-bit range (the gyro values are not sent, so they cannot cause it) |
| StreamToTcp.RavFramePacked | readers/StreamToTCP.py:60-98 | with a valid time, integers in every `int()` slot and 32-bit values wherever they are sent, the Raven conversions and the pack succeed; the gyro values need not fit in 32 bits |
| StreamToTcp.RavAccepts | readers/StreamToTCP.py:47-98 | a 21-token record with a clock time, numbers at 9 and 19, and integers in every other slot but 17, in 32-bit range except for the unsent gyro tokens 10..12, is packed, whatever token 17 holds |
| StreamToTcp.PackTrk | readers/StreamToTCP.py:137-147 | a link-health record is rejected exactly when it has fewer than 17 tokens or one of `parts[4:16]` is garbled; a frame has tag 13 and the `idiid` layout |
| StreamToTcp.TrkFrame | readers/StreamToTCP.py:149-159 | the conversions never reject; a frame has tag 13 and the `idiid` layout |
| StreamToTcp.TrkPacket | readers/StreamToTCP.py:159 | the link-health frame lists time, rssi_1, rssi_2 and battery in pack order |
| StreamToTcp.DecodeTrk | readers/StreamToTCP.py:113-164 | a frame from `pack_FW_TRK` has tag 13 and the `idiid` layout |
| StreamToTcp.TrkUnfold | readers/StreamToTCP.py:139-147 | a record with at least 17 tokens and numbers in `parts[4:16]` goes on to converting tokens 4, 7, 11 and 15 |
| StreamToTcp.TrkFieldMap | readers/StreamToTCP.py:149-159 | a link-health frame is [time of token 4, int of token 7, int of token 11, token 15 / 1000] |
| StreamToTcp.TrkSelection | readers/StreamToTCP.py:143-147 | two records of at least 17 tokens that agree on `parts[4:16]` decode alike |
| StreamToTcp.TrkFaults | readers/StreamToTCP.py:145-157 | a record past the garble check still raises when `float()` refuses a slice of its time token or an rssi token has a `.` |
| StreamToTcp.TrkPacketRange | readers/StreamToTCP.py:159 | `struct.pack` of a link-health frame raises exactly when an rssi value is outside the 32-bit range |
| StreamToTcp.TrkFrameFields | readers/StreamToTCP.py:149-159 | a packed link-health frame holds the converted tokens, and each conversion succeeded |
| StreamToTcp.TrkFramePacked | readers/StreamToTCP.py:150-159 | with a valid time and 32-bit rssi values, the conversions and the pack succeed |
| StreamToTcp.TrkAccepts | readers/StreamToTCP.py:137-159 | a record with a clock time at 4, numbers at 5..15 and 32-bit integers at 7 and 11 is packed |
| StreamToTcp.PackGps | readers/StreamToTCP.py:198-208 | a GPS record is rejected exactly when it does not have 22 tokens or one of `parts[4:16]` is garbled; a frame has tag 12 and the GPS layout |
| StreamToTcp.GpsFrame | readers/StreamToTCP.py:210-231 | the conversions never reject; a frame has tag 12 and the GPS layout |
| StreamToTcp.GpsPacket | readers/StreamToTCP.py:230-231 | the GPS frame lists time, altitude, lat, lon, hv, hdir, vv, fix and the four satellite counts in pack order |
| StreamToTcp.DecodeGps | readers/StreamToTCP.py:171-237 | a frame from `pack_FW_GPS` has tag 12 and the GPS layout |
| StreamToTcp.GpsFrameFields | readers/StreamToTCP.py:210-231 | each GPS field is the conversion of its token |
| StreamToTcp.GpsUnfold | readers/StreamToTCP.py:200-208 | a 22-token record with numbers in `parts[4:16]` goes on to the conversions of tokens 4..15 |
| StreamToTcp.GpsFieldMap | readers/StreamToTCP.py:210-231 | in a GPS frame: time from token 4, altitude from 5, lat and lon from 6 and 7, and `int` of tokens 8..15 |
| StreamToTcp.GpsSelection | readers/StreamToTCP.py:204-208 | two 22-token records that agree on `parts[4:16]` decode alike |
| StreamToTcp.GpsFaults | readers/StreamToTCP.py:206-228 | a record past the garble check still raises when `float()` refuses a slice of its time token, or on a `.` in the altitude or in tokens 8..15 |
| StreamToTcp.GpsRangeFault | readers/StreamToTCP.py:210-231 | it also raises when the altitude or one of tokens 8..15 is an integer outside the 32-bit range |
| StreamToTcp.GpsPacketRange | readers/StreamToTCP.py:230-231 | `struct.pack` of a GPS frame raises when the altitude or a trailing int is outside the 32-bit range |
| StreamToTcp.GpsFramePacked | readers/StreamToTCP.py:210-231 | with a valid time and 32-bit integers, the GPS conversions and the pack succeed |
| StreamToTcp.GpsAccepts | readers/StreamToTCP.py:198-231 | a 22-token record with a clock time at 4, numbers at 6 and 7 and 32-bit integers at 5 and 8..15 is packed |
| StreamToTcp.RavCut | readers/StreamToTCP.py:27-28 | `pack_RAV` decodes exactly what follows the first `RAV`; the text before it is irrelevant |
| StreamToTcp.TrkCut | readers/StreamToTCP.py:116-117 | `pack_FW_TRK` decodes exactly what follows the first `RX_NOMTK` |
| StreamToTcp.GpsCut | readers/StreamToTCP.py:174-175 | `pack_FW_GPS` decodes exactly what follows the first `GPS_STAT` |
| StreamToTcp.RavLine | readers/StreamToTCP.py:24-58 | a line whose first `RAV` is followed by a space and words joined by spaces, free of the deleted substrings, reaches the arity check as exactly those words |
| StreamToTcp.TrkLine | readers/StreamToTCP.py:113-147 | the same for `RX_NOMTK`, with words also free of ASCII letters |
| StreamToTcp.GpsLine | readers/StreamToTCP.py:171-208 | the same for `GPS_STAT` |
| StreamToTcp.RavCleanChars | readers/StreamToTCP.py:32-40 | the cleaned Raven text holds only input characters, and none of `#`, `"`, `,` or `:` |
| StreamToTcp.TrkCleanChars | readers/StreamToTCP.py:121-127 | the cleaned link-health text holds only input characters, and no ASCII letter, `:` or `_` |
| StreamToTcp.GpsCleanChars | readers/StreamToTCP.py:179-191 | the cleaned GPS text holds only input characters, and neither `#` nor `:` |
| StreamToTcp.CleanRavKeeps | readers/StreamToTCP.py:32-40 | `pack_RAV`'s cleanup leaves stripped text holding none of its deleted substrings unchanged |
| StreamToTcp.CleanTrkKeeps | readers/StreamToTCP.py:121-127 | `pack_FW_TRK`'s cleanup leaves stripped text without letters or deleted substrings unchanged |
| StreamToTcp.CleanGpsKeeps | readers/StreamToTCP.py:179-191 | `pack_FW_GPS`'s cleanup leaves stripped text holding none of its deleted substrings unchanged |
| StreamToTcp.TokensClean | readers/StreamToTCP.py:44-47 | every token a decoder tests is free of whitespace and of the characters that decoder deletes |
| MainLoop.GpsPart | readers/StreamToTCP.py:268-278 | on a first line holding `@ GPS_STAT` and `TRK`, the verdict is exactly `pack_FW_GPS`'s on that line; on any other line the decoder is not called |
| MainLoop.TrkPart | readers/StreamToTCP.py:280-288 | on a first line holding `@ RX_NOMTK`, the verdict is exactly `pack_FW_TRK`'s on that line; on any other line the decoder is not called |
| MainLoop.RavPart | readers/StreamToTCP.py:290-295 | on a second line holding `RAV`, the verdict is exactly `pack_RAV`'s on that line; on any other line the decoder is not called |
| MainLoop.Turn | readers/StreamToTCP.py:266-295 | a turn is skipped exactly when asked and then sends nothing; it crashes exactly when a verdict is a fault; a completed turn sends every packed verdict, and a crashed one those packed before the first fault |
| MainLoop.TurnOrder | readers/StreamToTCP.py:266-295 | a turn sends at most three frames, each the frame its decoder packed, with increasing tags: GPS, link health, Raven |
| MainLoop.Packed3Order | readers/StreamToTCP.py:266-295 | the packed verdicts come one per decoder, in the order of their tags |
| MainLoop.Iteration | readers/StreamToTCP.py:266-295 | a turn is skipped (Raven line included) exactly when the first line is a tracker report without this tracker's ID; it crashes exactly when a decoder it calls raises; a completed turn sends every packed verdict of the three decoders, a crashed one those packed before the fault, in the order GPS, link health, Raven |
| MainLoop.IterationSources | readers/StreamToTCP.py:266-295 | every frame a turn sends has its tag's layout and comes from a line carrying that decoder's marker |
| MainLoop.ReplayStep | readers/StreamToTCP.py:257-295 | one more turn of a live run appends that turn's frames |
| MainLoop.CrashIsFinal | readers/StreamToTCP.py:257-295 | after an uncaught exception, nothing more is sent |
| MainLoop.ReplayStops | readers/StreamToTCP.py:257-295 | a run that has crashed or used up its feed is over |
| MainLoop.ReplayGrows | readers/StreamToTCP.py:257-295 | more lines only add frames: what was sent stays sent, in order |
| MainLoop.ReplayFrames | readers/StreamToTCP.py:257-295 | a run sends only frames that its turns send |
| MainLoop.ReplayBound | readers/StreamToTCP.py:257-295 | a run sends at most three frames per turn |
| MainLoop.TranscriptWellLaid | readers/StreamToTCP.py:257-295 | every frame sent over a run has one of the three layouts, and there are at most three per line pair |
| MainLoop.Serve | readers/StreamToTCP.py:266-295 | the loop body, statement by statement, sends exactly the frames of `Iteration` and ends the same way |
| MainLoop.Run | readers/StreamToTCP.py:257-295 | the loop over a finite feed sends exactly the frames of `Transcript`, stops exactly at the first raised exception, and sends only well-laid frames |

## Left out

- Serial ports, the listening socket and `conn.sendall` are left out (lines 239-256). The loop reads from a finite feed of line pairs, and the frames it sends are returned as a list.
- The loop runs forever in the source. The model runs it over a finite feed.
- `str(bytes)` (lines 266 and 290) is left out: a line is the text that conversion yields, escapes included.
- The byte image of `struct.pack` is left out (native byte order, sizes and alignment). A frame is modelled by its tag and typed values, checked against the format string.
- Floating point is left out: time, battery, latitude and longitude are exact rationals, not IEEE doubles.
- Numbers.IsGarbled: a weaker model of `float()`. It accepts a signed decimal number only. It leaves out exponents, `inf`, `nan`, `_` digit separators and non-ASCII digits, which `float()` also accepts. This changes outcomes: a record holding such a token where `is_garbled` is tested is `Rejected` in the model, while the program goes on. Where the program then applies `int()` to a token such as `1e5`, `inf` or `nan` (for example `hg_1` at line 68 or `altitude_ft` at line 218), it raises and the loop ends, but the model rejects the record and the loop continues. Where the token is one the program converts without error, it packs a frame the model does not send.
- Numbers.IsInteger: a weaker model of `int()`. It accepts a sign plus ASCII digits, without `_` separators or non-ASCII digits. This changes outcomes: a token such as `1_000` passes both `float()` and `int()`, so the program packs a frame for a record that the model rejects. It also leaves out the limit of CPython 3.11 and later, where `int()` raises on a string of more than 4300 digits. The model accepts such a token, so on it `RavFramePacked`, `RavAccepts` and `RavGyroUnsent` promise a frame or an unchanged outcome, including for the gyro tokens (lines 80-82) that are parsed but not sent, where the program raises.
- StreamToTcp.DecodeRav: requires `RAV` in the line, which is what `data.index` needs. The loop calls it only in that case, so the `ValueError` of `index` is not modelled. The same holds for StreamToTcp.DecodeTrk (`RX_NOMTK`) and StreamToTcp.DecodeGps (`GPS_STAT`).
- `print` calls and the printing of the serial port list are left out.
- Text.DropRange: models `re.sub` only for the one-character-class patterns the decoder uses, not as a general regular-expression engine.
