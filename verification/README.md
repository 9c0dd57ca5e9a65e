# pack-for-wokwi, modelled in Dafny

`pack-for-wokwi.py` bundles a multi-file Arduino sketch into one text for
pasting into the Wokwi editor. It goes through a fixed list of seven source
files in dependency order. For each file it appends a banner, then the
file's content, then a blank line:

- the banner is a rule of 82 slashes, a line `// FILE: <path>`, and the rule again;
- the content is copied as read;
- the blank line is `"\n\n"`.

Over the joined text it then makes two substitutions, in this order:

- every `#pragma once` becomes `// #pragma once`;
- every `#include "` becomes `// #include "`.

These disable every directive spelled exactly `#pragma once` or
`#include "`, so that directives meant for separate files do not act inside
the one-file bundle. Other spellings of the same directives are not matched
and stay active. The result is written to `combined_code.txt`.

The project has three modules:

- `StrReplace` (`str_replace.dfy`) models Python's `str.replace` and
  `str.count`. Matches are found left to right and do not overlap, and the
  empty-pattern case is included. It proves the general facts about
  "commenting out", that is, replacing `pat` with `marker + pat`:
  - the markers are the only change, so the result can be undone;
  - no match is created or lost;
  - every match in the output is preceded by the marker;
  - two independent patterns can be commented out in either order.
- `Pieces` (`join.dfy`) models joining strings in order, as the `+=`
  accumulator does, and where each piece lands in the joined text.
- `PackForWokwi` (`pack_for_wokwi.dfy`) covers the script itself:
  - the file list, the banner and segment layout, and the two substitutions
    (`Neutralise`) with their inverse (`Restore`);
  - the method `Pack`, the script's loop and substitutions, proved against
    the specification function `Bundle`;
  - lemmas that describe the bundle segment by segment.

Reading files is a parameter: a map from path to the text a text-mode
`read()` returns. A path missing from the map is a file that cannot be
opened. Python's `open` raises there and the script stops before writing
anything, so `Pack` returns `ReadFailed` with the first such path. The
script's own run is `Pack(FilesToCombine, fs)`.

## Model

| member | source | states |
|---|---|---|
| PackForWokwi.IndexOf | pack-for-wokwi.py:5-17 | The position at which a listed path first appears: the path is there and at no earlier position. |
| PackForWokwi.IndexOfDistinct | pack-for-wokwi.py:5-17 | In a list without repeats, each entry is found at its own position. |
| PackForWokwi.FileListDistinct | pack-for-wokwi.py:6-17 | The list has seven paths and none is listed twice. |
| PackForWokwi.FileListOrder | pack-for-wokwi.py:5-17 | The dependency order from the list's comments holds: `Note.hpp` < `Song.hpp` < `SongPlayer.hpp`, `Song.hpp` < `songs.hpp` < `songs.cpp`, and every other file < the main `.ino` file. |
| PackForWokwi.BannerInjective | pack-for-wokwi.py:24-27 | Different paths give different banners, so no two listed files share a banner. |
| PackForWokwi.Pack | pack-for-wokwi.py:20-37 | The run fails exactly when some listed path cannot be read, and it reports the first such path. Otherwise every path was read and the result is the bundle of the records in list order, with both substitutions applied. |
| PackForWokwi.Records | pack-for-wokwi.py:21-30 | One record per listed path, in list order, each pairing the path with the text read for it. |
| PackForWokwi.Segments | pack-for-wokwi.py:21-31 | One segment per file, in file order. |
| PackForWokwi.SeparatorShape | pack-for-wokwi.py:24 | The rule is 83 characters: 82 slashes and a newline. |
| PackForWokwi.SegmentLayout | pack-for-wokwi.py:24-31 | A segment is 178 + path + content characters long. It holds the rule, `// FILE: `, the path, a newline, the rule, the content verbatim and `"\n\n"`, at the given offsets. |
| PackForWokwi.ConcatAppend | pack-for-wokwi.py:21-31 | Each loop iteration appends exactly that file's segment and leaves the text before it unchanged. |
| PackForWokwi.SegmentInConcat | pack-for-wokwi.py:21-31 | The i-th segment occupies its own slice of the joined text, unchanged. |
| PackForWokwi.ContentVerbatim | pack-for-wokwi.py:30 | Each file's content appears verbatim in the joined text, right after its banner. |
| PackForWokwi.SegmentsInOrder | pack-for-wokwi.py:21-31 | An earlier file's segment ends before a later file's segment begins: list order is kept and segments do not overlap. |
| PackForWokwi.ConcatLength | pack-for-wokwi.py:21-31 | The joined text is exactly the sum of the segment lengths: nothing is dropped or added. |
| PackForWokwi.DirectivesIndependent | pack-for-wokwi.py:34-37 | `#pragma once`, `#include "` and the marker `// ` satisfy the conditions under which the two substitutions do not interfere. |
| PackForWokwi.DelimitersOutside | pack-for-wokwi.py:24-37 | Newline and slash occur in neither directive. |
| PackForWokwi.BannerHashFree | pack-for-wokwi.py:24-26 | The rule and the label prefix contain no `#`. |
| PackForWokwi.NeutraliseRoundTrip | pack-for-wokwi.py:34-37 | The directives are commented out, not removed: deleting the inserted markers in reverse order gives back the original text. |
| PackForWokwi.NeutraliseLength | pack-for-wokwi.py:34-37 | The output is longer by exactly 3 characters per `#pragma once` and per `#include "` in the input. |
| PackForWokwi.MarkerGrowth | pack-for-wokwi.py:34 | One substitution adds 3 characters per match. |
| PackForWokwi.DirectivesKept | pack-for-wokwi.py:34-37 | The output holds as many `#pragma once` and `#include "` occurrences as the input: none is created or destroyed. |
| PackForWokwi.NeutraliseOrderIndependent | pack-for-wokwi.py:34-37 | The two substitutions give the same result in either order. |
| PackForWokwi.EveryDirectiveCommented | pack-for-wokwi.py:34-37 | Every `#pragma once` and every `#include "` in the output is immediately preceded by `// `. |
| PackForWokwi.NeutraliseUnchangedIff | pack-for-wokwi.py:34-37 | The substitutions leave the text unchanged if and only if it holds neither directive. |
| PackForWokwi.RepeatChangesIffDirective | pack-for-wokwi.py:34-37 | A second run changes nothing if and only if the first run changed nothing. |
| PackForWokwi.NotIdempotent | pack-for-wokwi.py:34-37 | On `#pragma once` the first run gives `// #pragma once` and the second gives `// // #pragma once`. |
| PackForWokwi.HashFreeKept | pack-for-wokwi.py:34-37 | A prefix with no `#` is copied unchanged in front of the neutralised rest. |
| PackForWokwi.HashFreeUnchanged | pack-for-wokwi.py:34-37 | Text with no `#` is left as it is. |
| PackForWokwi.NeutraliseSplit | pack-for-wokwi.py:34-37 | A character that is in neither directive splits the substitutions into independent halves. |
| PackForWokwi.NeutraliseJoin | pack-for-wokwi.py:34-37 | The same holds when the second text starts with such a character. |
| PackForWokwi.NeutraliseAfterNewline | pack-for-wokwi.py:34-37 | Text after a newline is neutralised on its own. |
| PackForWokwi.LeadingPragma | pack-for-wokwi.py:34 | A leading `#pragma once` gets the marker, and the rest is treated on its own. |
| PackForWokwi.LeadingInclude | pack-for-wokwi.py:37 | A leading `#include "` gets the marker, and the rest is treated on its own. |
| PackForWokwi.OtherSpellingKept | pack-for-wokwi.py:34-37 | Text that starts with `#`, has no other `#`, and is a prefix of neither pattern (nor has either as a prefix) is copied unchanged, and the rest is treated on its own. |
| PackForWokwi.AngleIncludeKept | pack-for-wokwi.py:36-37 | A system include `#include <` is not touched. |
| PackForWokwi.SpacingVariantsKept | pack-for-wokwi.py:34-37 | `#include"` with no space and `# pragma once` with a space after the `#` are left active. |
| PackForWokwi.NeutraliseBanner | pack-for-wokwi.py:24-37 | The banner's rules and label survive; only `#` text inside the path could change. |
| PackForWokwi.BlankLineKept | pack-for-wokwi.py:31-37 | The closing blank line survives. |
| PackForWokwi.NeutraliseSegment | pack-for-wokwi.py:24-37 | A neutralised segment is the banner of the neutralised path, the neutralised content, and the blank line. |
| PackForWokwi.NeutraliseBeforeSegment | pack-for-wokwi.py:24-37 | A segment starts with `/`, so no directive match straddles a segment boundary. |
| PackForWokwi.BundleBySegment | pack-for-wokwi.py:20-37 | Applying the substitutions once to the whole text equals applying them to each segment and joining the results in order. |
| PackForWokwi.NeutralSegmentsAppend | pack-for-wokwi.py:21-37 | Adding a file adds its neutralised segment at the end. |
| PackForWokwi.BundleLayout | pack-for-wokwi.py:20-37 | In the written bundle, each file's neutralised segment sits in its own slice, in list order. |
| PackForWokwi.BundleOfTwo | pack-for-wokwi.py:20-37 | A two-file bundle is the two neutralised segments, one after the other. |
| PackForWokwi.TwoHeaders | pack-for-wokwi.py:20-37 | Take a header starting with `#pragma once`, then a header starting with `#include "`, with no other `#`. Their bundle is the two banners and contents, with exactly those two directives commented out. |
| StrReplace.Count | pack-for-wokwi.py:34-37 | Python's `count`: an empty pattern counts `len + 1`, and otherwise there are at most `len` non-overlapping matches. |
| StrReplace.Replace | pack-for-wokwi.py:34-37 | Python's `replace`: a text without matches is returned unchanged. |
| StrReplace.ReplaceLength | pack-for-wokwi.py:34-37 | Each match changes the length by `|rep| - |pat|`. |
| StrReplace.CountZeroIffAbsent | pack-for-wokwi.py:34-37 | A non-empty pattern has zero matches if and only if it occurs nowhere. |
| StrReplace.OnlyAtStartTail | pack-for-wokwi.py:34-37 | A character that occurs only at the start does not occur in the tail. |
| StrReplace.ReplaceMatchFirst | pack-for-wokwi.py:34-37 | A match at the start is replaced, and the scan resumes right after it. |
| StrReplace.ReplaceSkipFirst | pack-for-wokwi.py:34-37 | A character that starts no match is copied, and the scan moves one position. |
| StrReplace.KeepsPrefix | pack-for-wokwi.py:34-37 | A prefix that lacks the pattern's first character is copied unchanged in front of the replaced rest. |
| StrReplace.SplitAt | pack-for-wokwi.py:34-37 | A character not in the pattern splits the replacement in two: `replace(a + x + b) == replace(a) + x + replace(b)`. |
| StrReplace.JoinAt | pack-for-wokwi.py:34-37 | Replacement distributes over a join whose right part starts outside the pattern, and that part's first character is copied as it is. |
| StrReplace.PrefixOfOutput | pack-for-wokwi.py:34-37 | When commenting out, a prefix of the output that avoids the marker's first character is a prefix of the input too. |
| StrReplace.NoMarkerTailStart | pack-for-wokwi.py:34-37 | A proper tail of the marker followed by the pattern never starts the commented-out text. |
| StrReplace.NoBareFirst | pack-for-wokwi.py:34-37 | After commenting out, no bare pattern starts the output. |
| StrReplace.CommentOutRoundTrip | pack-for-wokwi.py:34-37 | Replacing `c + pat` back with `pat` undoes commenting out, for any text. |
| StrReplace.CommentOutChangesIffOccurs | pack-for-wokwi.py:34-37 | Commenting out changes the text if and only if the pattern occurs in it. |
| StrReplace.EveryOccurrenceMarked | pack-for-wokwi.py:34-37 | After commenting out, every occurrence of the pattern is immediately preceded by the marker. |
| StrReplace.CommentOutKeepsCount | pack-for-wokwi.py:34-37 | Commenting out keeps the number of matches of the pattern. |
| StrReplace.IndependentUnconfused | pack-for-wokwi.py:34-37 | Independent patterns cannot be mistaken for each other at any position. |
| StrReplace.PatternThenRest | pack-for-wokwi.py:34-37 | Replacing an unconfused `q` in `p + x` copies `p` and continues with `x`. |
| StrReplace.MarkedPatternThenRest | pack-for-wokwi.py:34-37 | The same holds for the marker followed by `p`. |
| StrReplace.OtherAtStart | pack-for-wokwi.py:34-37 | After commenting out `p`, a match of an independent `q` at the start was already there. |
| StrReplace.CommentOutKeepsOtherCount | pack-for-wokwi.py:34-37 | Commenting out `p` leaves the number of matches of an independent `q` unchanged. |
| StrReplace.CommentOutCommutes | pack-for-wokwi.py:34-37 | Two independent patterns commented out in either order give the same text. |
| Pieces.JoinAppend | pack-for-wokwi.py:20-31 | Appending one more piece extends the joined text by exactly that piece. |
| Pieces.JoinPrefix | pack-for-wokwi.py:20-31 | Joining a prefix of the pieces gives a prefix of the joined text: earlier appends are never changed. |
| Pieces.PieceAt | pack-for-wokwi.py:20-31 | The i-th piece occupies `[Offset(i), Offset(i+1))` of the joined text, unchanged. |
| Pieces.OffsetMonotone | pack-for-wokwi.py:20-31 | Offsets never decrease along the list. |
| Pieces.PiecesInOrder | pack-for-wokwi.py:20-31 | An earlier piece ends no later than a later piece starts. |
| Pieces.JoinLength | pack-for-wokwi.py:20-31 | The joined text is as long as all the pieces together. |
| Pieces.JoinFront | pack-for-wokwi.py:20-31 | The joined text is the first piece followed by the rest joined. |
| Pieces.JoinTwo | pack-for-wokwi.py:20-31 | Two pieces join to their concatenation. |

## Left out

- The substitutions at lines 34 and 37 are plain `str.replace` calls, and the model follows them. They do not recognise a directive written with other spacing, such as `# pragma once`, `#  pragma once` or `#include"a.h"`, and those stay active in the bundle (`SpacingVariantsKept`). A whitespace-tolerant pattern is not part of this model.
- File I/O is modelled as a map from path to already-decoded text. Not modelled: the working directory, the platform's default encoding, text-mode newline translation (`\r\n` to `\n`), and exceptions other than "cannot be read" (lines 22 and 30).
- Writing `combined_code.txt` (lines 42-43) and the final message (line 45) are output only. `Pack` returns the text that would be written.
- Line 39 is a commented-out regex alternative that the script never runs. Its comment on line 36 mentions a regex, but the code uses a plain `str.replace`, and that is what is modelled.
- The source files being bundled (for example `src/audio/songs.cpp`) are not part of this model. `FilesToCombine` records their paths, and `FileListOrder` proves the order that the list's comments state. Whether those files' actual includes agree with that order is not checked.
- The commented-out text is not checked to compile: C++ semantics are not part of this model.
- PackForWokwi.TwoHeaders: stated for any paths and contents without `#`, rather than only for the literal `a.h`/`b.h` example. The literal example is an instance.
- Neutralising is not idempotent. A second run adds another `// ` before every directive, as `NotIdempotent` and `RepeatChangesIffDirective` show. The model follows the code, so it does not claim idempotence.
