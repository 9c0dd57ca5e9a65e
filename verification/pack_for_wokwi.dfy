/**
 * The Wokwi bundler: it reads an ordered list of source files, wraps each
 * one in a banner naming its path, joins them into one text, and then
 * comments out every `#pragma once` and every `#include "` so that the
 * result compiles as a single file in the Wokwi editor.
 *
 * Reading a file is modelled by a map from path to the text Python's
 * text-mode `read()` returns; a path missing from the map is a file that
 * cannot be opened or decoded, which aborts the run.
 */
module PackForWokwi {
  import opened StrReplace
  import opened Pieces

  /** A file that was read: its path as listed and its whole content. */
  datatype FileRecord = FileRecord(path: string, content: string)

  /** How a run ends: the bundle that would be written, or the first path that could not be read. */
  datatype Outcome = Written(text: string) | ReadFailed(path: string)

  /** The files the script bundles, in dependency order: a file comes after those it uses. */
  const FilesToCombine: seq<string> := [
    "src/io_config.hpp",
    "src/audio/Note.hpp",
    "src/audio/Song.hpp",
    "src/audio/SongPlayer.hpp",
    "src/audio/songs.hpp",
    "src/audio/songs.cpp",
    "embedded-ff7-fanfare.ino"
  ]

  /** Where `p` is first listed in `paths`. */
  function IndexOf(paths: seq<string>, p: string): (k: nat)
    requires p in paths
    ensures k < |paths| && paths[k] == p
    ensures forall j :: 0 <= j < k ==> paths[j] != p
  {
    if paths[0] == p then 0 else 1 + IndexOf(paths[1..], p)
  }

  /** In a list without repeats, a path's first position is its only one. */
  lemma IndexOfDistinct(paths: seq<string>, k: nat)
    requires k < |paths|
    requires forall i, j :: 0 <= i < j < |paths| ==> paths[i] != paths[j]
    ensures IndexOf(paths, paths[k]) == k
  {
    var m := IndexOf(paths, paths[k]);
    assert paths[m] == paths[k];
  }

  /** No path is listed twice. */
  lemma FileListDistinct()
    ensures |FilesToCombine| == 7
    ensures forall i, j :: 0 <= i < j < |FilesToCombine| ==> FilesToCombine[i] != FilesToCombine[j]
  {
    var l := FilesToCombine;
    forall i, j | 0 <= i < j < |l| ensures l[i] != l[j] {
      assert |l[0]| == 17 && |l[1]| == 18 && |l[2]| == 18 && |l[3]| == 24;
      assert |l[4]| == 19 && |l[5]| == 19 && |l[6]| == 24;
      assert l[1][10] != l[2][10] && l[3][0] != l[6][0] && l[4][16] != l[5][16];
    }
  }

  /**
   * Each file comes after the files it uses: `Note.hpp` before `Song.hpp`,
   * which comes before `SongPlayer.hpp` and `songs.hpp`; `songs.hpp` before
   * `songs.cpp`; and every other file before the sketch's main file.
   */
  lemma FileListOrder()
    ensures "src/audio/Note.hpp" in FilesToCombine && "src/audio/Song.hpp" in FilesToCombine
    ensures "src/audio/SongPlayer.hpp" in FilesToCombine && "src/audio/songs.hpp" in FilesToCombine
    ensures "src/audio/songs.cpp" in FilesToCombine && "embedded-ff7-fanfare.ino" in FilesToCombine
    ensures IndexOf(FilesToCombine, "src/audio/Note.hpp") < IndexOf(FilesToCombine, "src/audio/Song.hpp")
    ensures IndexOf(FilesToCombine, "src/audio/Song.hpp") < IndexOf(FilesToCombine, "src/audio/SongPlayer.hpp")
    ensures IndexOf(FilesToCombine, "src/audio/Song.hpp") < IndexOf(FilesToCombine, "src/audio/songs.hpp")
    ensures IndexOf(FilesToCombine, "src/audio/songs.hpp") < IndexOf(FilesToCombine, "src/audio/songs.cpp")
    ensures forall p :: p in FilesToCombine && p != "embedded-ff7-fanfare.ino" ==>
              IndexOf(FilesToCombine, p) < IndexOf(FilesToCombine, "embedded-ff7-fanfare.ino")
  {
    ListedAt(1, "src/audio/Note.hpp");
    ListedAt(2, "src/audio/Song.hpp");
    ListedAt(3, "src/audio/SongPlayer.hpp");
    ListedAt(4, "src/audio/songs.hpp");
    ListedAt(5, "src/audio/songs.cpp");
    ListedAt(6, "embedded-ff7-fanfare.ino");
    forall p | p in FilesToCombine && p != "embedded-ff7-fanfare.ino"
      ensures IndexOf(FilesToCombine, p) < 6
    {
      assert FilesToCombine[IndexOf(FilesToCombine, p)] == p;
    }
  }

  /** The path at position `k` of the list is first listed there. */
  lemma ListedAt(k: nat, p: string)
    requires k < |FilesToCombine| && FilesToCombine[k] == p
    ensures p in FilesToCombine && IndexOf(FilesToCombine, p) == k
  {
    FileListDistinct();
    IndexOfDistinct(FilesToCombine, k);
  }

  /** The compile-once directive, commented out by the first substitution. */
  const Pragma: string := "#pragma once"
  /** The start of a local include, commented out by the second substitution. */
  const Include: string := "#include \""
  /** What each substitution puts in front of a directive. */
  const Marker: string := "// "

  /** The banner rule: two slashes, eighty more, and a newline. */
  function Separator(): (r: string) {
    "//" + seq(80, _ => '/') + "\n"
  }

  /** The rule is 83 characters: 82 slashes, then the newline. */
  lemma SeparatorShape()
    ensures |Separator()| == 83 && Separator()[82] == '\n'
    ensures forall i :: 0 <= i < 82 ==> Separator()[i] == '/'
  {
    var r := Separator();
    forall i | 0 <= i < 82 ensures r[i] == '/' {
      if i >= 2 {
        assert r[i] == seq(80, _ => '/')[i - 2];
      }
    }
  }

  /** The banner line naming the file. */
  function Label(path: string): (r: string) {
    "// FILE: " + path + "\n"
  }

  /** Rule, label, rule: the three lines put before each file's content. */
  function Banner(path: string): (r: string) {
    Separator() + Label(path) + Separator()
  }

  /** Distinct paths get distinct banners, so no two listed files share one. */
  lemma BannerInjective(p: string, q: string)
    ensures Banner(p) == Banner(q) ==> p == q
  {
    if Banner(p) == Banner(q) {
      SeparatorShape();
      assert |Banner(p)| == 176 + |p| && |Banner(q)| == 176 + |q|;
      assert Banner(p)[92..92 + |p|] == p;
      assert Banner(q)[92..92 + |q|] == q;
    }
  }

  /** What one file adds to the bundle before the substitutions. */
  function Segment(f: FileRecord): (r: string) {
    Banner(f.path) + f.content + "\n\n"
  }

  /**
   * Where each part of a segment lies: the rule, the label with the path,
   * the rule again, the content copied as is, and the closing blank line.
   */
  lemma SegmentLayout(f: FileRecord)
    ensures var r, p, n := Segment(f), |f.path|, |f.content|;
      |r| == 178 + p + n &&
      r[..83] == Separator() && r[83..92] == "// FILE: " &&
      r[92..92 + p] == f.path && r[92 + p] == '\n' &&
      r[93 + p..176 + p] == Separator() &&
      r[176 + p..176 + p + n] == f.content &&
      r[176 + p + n..] == "\n\n"
  {
    var r, p, n := Segment(f), |f.path|, |f.content|;
    var sep, line := Separator(), "// FILE: " + f.path + "\n";
    SeparatorShape();
    assert |line| == 10 + p;
    assert r == sep + line + sep + f.content + "\n\n";
    assert r[..83] == sep;
    assert r[83..93 + p] == line;
    assert line[..9] == "// FILE: " && line[9..9 + p] == f.path && line[9 + p] == '\n';
    assert r[93 + p..176 + p] == sep;
    assert r[176 + p..176 + p + n] == f.content;
  }

  /** The segments of the files, in the order of the files. */
  function Segments(files: seq<FileRecord>): (ss: seq<string>)
    ensures |ss| == |files|
  {
    seq(|files|, i requires 0 <= i < |files| => Segment(files[i]))
  }

  /** The bundle text before the substitutions. */
  function Concat(files: seq<FileRecord>): (r: string) {
    Join(Segments(files))
  }

  /** The two substitutions, in the order the script applies them. */
  function Neutralise(text: string): (r: string) {
    Replace(Replace(text, Pragma, Marker + Pragma), Include, Marker + Include)
  }

  /** Removes the markers the substitutions inserted, undoing them in reverse order. */
  function Restore(text: string): (r: string) {
    Replace(Replace(text, Marker + Include, Include), Marker + Pragma, Pragma)
  }

  /** What the script writes for files that could all be read. */
  function Bundle(files: seq<FileRecord>): (r: string) {
    Neutralise(Concat(files))
  }

  /** The records for paths that can all be read from `fs`. */
  function Records(paths: seq<string>, fs: map<string, string>): (files: seq<FileRecord>)
    requires forall k :: 0 <= k < |paths| ==> paths[k] in fs
    ensures |files| == |paths|
    ensures forall k :: 0 <= k < |paths| ==> files[k].path == paths[k] && files[k].content == fs[paths[k]]
  {
    seq(|paths|, k requires 0 <= k < |paths| => FileRecord(paths[k], fs[paths[k]]))
  }

  /** A segment as it appears in the bundle: the banner as is, path and content neutralised. */
  function NeutralSegment(f: FileRecord): (r: string) {
    Banner(Neutralise(f.path)) + Neutralise(f.content) + "\n\n"
  }

  function NeutralSegments(files: seq<FileRecord>): (ss: seq<string>)
    ensures |ss| == |files|
  {
    seq(|files|, i requires 0 <= i < |files| => NeutralSegment(files[i]))
  }

  /**
   * The script's run on the listed paths: the loop that grows the bundle
   * one file at a time, then the two substitutions over the whole text.
   * Nothing is written unless every file could be read.
   */
  method Pack(paths: seq<string>, fs: map<string, string>) returns (out: Outcome)
    ensures out.ReadFailed? <==> exists k :: 0 <= k < |paths| && paths[k] !in fs
    ensures out.ReadFailed? ==>
              (exists k :: 0 <= k < |paths| && out.path == paths[k] && paths[k] !in fs &&
                 forall j :: 0 <= j < k ==> paths[j] in fs)
    ensures out.Written? ==>
              (forall k :: 0 <= k < |paths| ==> paths[k] in fs) && out.text == Bundle(Records(paths, fs))
  {
    var combined := "";
    for i := 0 to |paths|
      invariant forall k :: 0 <= k < i ==> paths[k] in fs
      invariant combined == Concat(Records(paths[..i], fs))
    {
      var file := paths[i];
      if file !in fs {
        return ReadFailed(file);
      }
      var separator := "//" + seq(80, _ => '/') + "\n";
      ConcatAppend(Records(paths[..i], fs), FileRecord(file, fs[file]));
      assert Records(paths[..i + 1], fs) == Records(paths[..i], fs) + [FileRecord(file, fs[file])];
      combined := combined + separator;
      combined := combined + "// FILE: " + file + "\n";
      combined := combined + separator;
      combined := combined + fs[file];
      combined := combined + "\n\n";
    }
    assert paths[..|paths|] == paths;
    combined := Replace(combined, Pragma, Marker + Pragma);
    combined := Replace(combined, Include, Marker + Include);
    return Written(combined);
  }

  // ---------------------------------------------------------------------
  // The bundle before the substitutions

  /** Adding a file to the list adds its segment at the end and changes nothing before it. */
  lemma ConcatAppend(files: seq<FileRecord>, f: FileRecord)
    ensures Concat(files + [f]) == Concat(files) + Segment(f)
  {
    assert Segments(files + [f]) == Segments(files) + [Segment(f)];
    JoinAppend(Segments(files), Segment(f));
  }

  /** The `i`-th file's segment sits, unchanged, between its offset and the next one. */
  lemma SegmentInConcat(files: seq<FileRecord>, i: nat)
    requires i < |files|
    ensures Offset(Segments(files), i + 1) == Offset(Segments(files), i) + |Segment(files[i])| <= |Concat(files)|
    ensures Concat(files)[Offset(Segments(files), i)..Offset(Segments(files), i + 1)] == Segment(files[i])
  {
    PieceAt(Segments(files), i);
  }

  /** Each file's content is copied into the bundle verbatim, right after its banner. */
  lemma ContentVerbatim(files: seq<FileRecord>, i: nat)
    requires i < |files|
    ensures var o := Offset(Segments(files), i) + |Banner(files[i].path)|;
      o + |files[i].content| <= |Concat(files)| &&
      Concat(files)[o..o + |files[i].content|] == files[i].content
  {
    var ss := Segments(files);
    var b := |Banner(files[i].path)|;
    var n := |files[i].content|;
    SegmentInConcat(files, i);
    var seg := Concat(files)[Offset(ss, i)..Offset(ss, i + 1)];
    assert b == 176 + |files[i].path| && seg[b..b + n] == files[i].content by {
      SegmentLayout(files[i]);
      SeparatorShape();
    }
    SliceOfSlice(Concat(files), Offset(ss, i), Offset(ss, i + 1), b, b + n);
  }

  /** Segments appear in list order: an earlier file's segment ends before a later file's begins. */
  lemma SegmentsInOrder(files: seq<FileRecord>, i: nat, j: nat)
    requires i < j < |files|
    ensures Offset(Segments(files), i) < Offset(Segments(files), i) + |Segment(files[i])| <= Offset(Segments(files), j)
  {
    PiecesInOrder(Segments(files), i, j);
  }

  /** The sum of the segment lengths, file by file. */
  function SegmentsLength(files: seq<FileRecord>): (n: nat)
    decreases |files|
  {
    if files == [] then 0 else 178 + |files[0].path| + |files[0].content| + SegmentsLength(files[1..])
  }

  /** Nothing is skipped or added: the bundle is as long as all the segments together. */
  lemma {:induction false} ConcatLength(files: seq<FileRecord>)
    ensures |Concat(files)| == SegmentsLength(files)
  {
    JoinLength(Segments(files));
    TotalSegmentsLength(files);
  }

  lemma {:induction false} TotalSegmentsLength(files: seq<FileRecord>)
    ensures TotalLength(Segments(files)) == SegmentsLength(files)
    decreases |files|
  {
    if files != [] {
      assert Segments(files)[1..] == Segments(files[1..]);
      TotalSegmentsLength(files[1..]);
    }
  }

  // ---------------------------------------------------------------------
  // The two substitutions

  /** The directives and the marker meet the conditions under which commenting out behaves well. */
  lemma DirectivesIndependent()
    ensures Independent(Pragma, Include, Marker) && Independent(Include, Pragma, Marker)
  {
    assert Include[1] != Pragma[1];
  }

  /** The newline and the slash, which the banner puts around paths and contents, are in neither directive. */
  lemma DelimitersOutside()
    ensures '\n' !in Pragma && '\n' !in Include && '/' !in Pragma && '/' !in Include
  {
  }

  /** The banner's rule and the start of its label hold no `#`. */
  lemma BannerHashFree()
    ensures '#' !in Separator() && '#' !in Separator() + "// FILE: "
  {
    SeparatorShape();
  }

  /** Commented out, not deleted: removing the inserted markers gives back the text. */
  lemma NeutraliseRoundTrip(text: string)
    ensures Restore(Neutralise(text)) == text
  {
    var once := Replace(text, Pragma, Marker + Pragma);
    CommentOutRoundTrip(once, Include, Marker);
    CommentOutRoundTrip(text, Pragma, Marker);
  }

  /** Each directive occurrence adds exactly the three characters of the marker. */
  lemma NeutraliseLength(text: string)
    ensures |Neutralise(text)| == |text| + 3 * (Count(text, Pragma) + Count(text, Include))
  {
    var once := Replace(text, Pragma, Marker + Pragma);
    MarkerGrowth(text, Pragma);
    MarkerGrowth(once, Include);
    DirectivesIndependent();
    CommentOutKeepsOtherCount(text, Pragma, Include, Marker);
  }

  /** Commenting out one pattern adds the marker's three characters per match. */
  lemma MarkerGrowth(s: string, pat: string)
    ensures |Replace(s, pat, Marker + pat)| == |s| + 3 * Count(s, pat)
  {
    ReplaceLength(s, pat, Marker + pat);
  }

  /** Neither substitution creates or destroys a match of either directive. */
  lemma DirectivesKept(text: string)
    ensures Count(Neutralise(text), Pragma) == Count(text, Pragma)
    ensures Count(Neutralise(text), Include) == Count(text, Include)
  {
    DirectivesIndependent();
    var once := Replace(text, Pragma, Marker + Pragma);
    CommentOutKeepsCount(once, Include, Marker);
    CommentOutKeepsOtherCount(text, Pragma, Include, Marker);
    CommentOutKeepsOtherCount(Replace(text, Include, Marker + Include), Include, Pragma, Marker);
    CommentOutCommutes(text, Pragma, Include, Marker);
    CommentOutKeepsCount(Replace(text, Include, Marker + Include), Pragma, Marker);
    CommentOutKeepsOtherCount(text, Include, Pragma, Marker);
  }

  /** The two substitutions give the same text in either order. */
  lemma NeutraliseOrderIndependent(text: string)
    ensures Neutralise(text) ==
            Replace(Replace(text, Include, Marker + Include), Pragma, Marker + Pragma)
  {
    DirectivesIndependent();
    CommentOutCommutes(text, Pragma, Include, Marker);
  }

  /** In the output, every `#pragma once` and every `#include "` comes right after the marker. */
  lemma EveryDirectiveCommented(text: string)
    ensures forall i: nat :: OccursAt(Neutralise(text), Pragma, i) ==>
              3 <= i && Neutralise(text)[i - 3..i] == Marker
    ensures forall i: nat :: OccursAt(Neutralise(text), Include, i) ==>
              3 <= i && Neutralise(text)[i - 3..i] == Marker
  {
    DirectivesIndependent();
    EveryOccurrenceMarked(Replace(text, Pragma, Marker + Pragma), Include, Marker);
    NeutraliseOrderIndependent(text);
    EveryOccurrenceMarked(Replace(text, Include, Marker + Include), Pragma, Marker);
  }

  /** The output differs from the text exactly when the text holds a directive. */
  lemma NeutraliseUnchangedIff(text: string)
    ensures Neutralise(text) == text <==>
            forall i: nat :: !OccursAt(text, Pragma, i) && !OccursAt(text, Include, i)
  {
    NeutraliseLength(text);
    CountZeroIffAbsent(text, Pragma);
    CountZeroIffAbsent(text, Include);
    var n := Count(text, Pragma) + Count(text, Include);
    if n > 0 {
      assert |Neutralise(text)| > |text|;
    } else {
      assert Replace(text, Pragma, Marker + Pragma) == text;
    }
  }

  /**
   * Running the substitutions a second time changes nothing only for text
   * they left unchanged the first time: on any text holding a directive,
   * each run adds another marker.
   */
  lemma RepeatChangesIffDirective(text: string)
    ensures Neutralise(Neutralise(text)) == Neutralise(text) <==> Neutralise(text) == text
  {
    var once := Neutralise(text);
    DirectivesKept(text);
    NeutraliseLength(text);
    NeutraliseLength(once);
  }

  /** The substitutions are not idempotent: a second run comments the pragma out again. */
  lemma NotIdempotent()
    ensures Neutralise(Pragma) == Marker + Pragma
    ensures Neutralise(Neutralise(Pragma)) == Marker + Marker + Pragma != Neutralise(Pragma)
  {
    LeadingPragma([]);
    assert Pragma + [] == Pragma;
    assert Marker + Pragma + [] == Marker + Pragma;
    HashFreeKept(Marker, Pragma);
  }

  /** Text without `#` is copied unchanged in front of the rest. */
  lemma HashFreeKept(w: string, z: string)
    requires '#' !in w
    ensures Neutralise(w + z) == w + Neutralise(z)
  {
    KeepsPrefix(w, z, Pragma, Marker + Pragma);
    KeepsPrefix(w, Replace(z, Pragma, Marker + Pragma), Include, Marker + Include);
  }

  /** A character that is in neither directive splits the substitutions in two. */
  lemma NeutraliseSplit(a: string, x: char, b: string)
    requires x !in Pragma && x !in Include
    ensures Neutralise(a + [x] + b) == Neutralise(a) + [x] + Neutralise(b)
  {
    SplitAt(a, x, b, Pragma, Marker + Pragma);
    SplitAt(Replace(a, Pragma, Marker + Pragma), x, Replace(b, Pragma, Marker + Pragma), Include, Marker + Include);
  }

  /** A `#pragma once` at the start gets the marker; the rest is treated on its own. */
  lemma LeadingPragma(t: string)
    ensures Neutralise(Pragma + t) == Marker + Pragma + Neutralise(t)
  {
    DirectivesIndependent();
    IndependentUnconfused(Pragma, Include, Marker);
    var once := Replace(t, Pragma, Marker + Pragma);
    ReplaceMatchFirst(t, Pragma, Marker + Pragma);
    MarkedPatternThenRest(Pragma, Include, Marker, once, Marker + Include);
  }

  /** A `#include "` at the start gets the marker; the rest is treated on its own. */
  lemma LeadingInclude(t: string)
    ensures Neutralise(Include + t) == Marker + Include + Neutralise(t)
  {
    DirectivesIndependent();
    IndependentUnconfused(Pragma, Include, Marker);
    var once := Replace(t, Pragma, Marker + Pragma);
    PatternThenRest(Include, Pragma, t, Marker + Pragma);
    ReplaceMatchFirst(once, Include, Marker + Include);
  }

  /**
   * A directive spelled otherwise than the two patterns, with `#` only at
   * its start, is copied unchanged; the rest is treated on its own.
   */
  lemma OtherSpellingKept(d: string, t: string)
    requires Unconfused(d, Pragma) && Unconfused(d, Include)
    ensures Neutralise(d + t) == d + Neutralise(t)
  {
    PatternThenRest(d, Pragma, t, Marker + Pragma);
    PatternThenRest(d, Include, Replace(t, Pragma, Marker + Pragma), Marker + Include);
  }

  /** An include with angle brackets is left as it is. */
  lemma AngleIncludeKept(t: string)
    ensures Neutralise("#include <" + t) == "#include <" + Neutralise(t)
  {
    var angle := "#include <";
    assert Unconfused(angle, Pragma) && Unconfused(angle, Include) by {
      assert angle[1] != Pragma[1] && angle[9] != Include[9];
      assert angle[1..] == "include <";
    }
    OtherSpellingKept(angle, t);
  }

  /**
   * The substitutions match exact spellings only: a local include with no
   * space before the quote, and a pragma with a space after the `#`, both
   * valid C++, stay active in the bundle.
   */
  lemma SpacingVariantsKept(t: string)
    ensures Neutralise("#include\"" + t) == "#include\"" + Neutralise(t)
    ensures Neutralise("# pragma once" + t) == "# pragma once" + Neutralise(t)
  {
    var tight, spaced := "#include\"", "# pragma once";
    assert Unconfused(tight, Pragma) && Unconfused(tight, Include) by {
      assert tight[1] != Pragma[1] && tight[8] != Include[8];
      assert tight[1..] == "include\"";
    }
    assert Unconfused(spaced, Pragma) && Unconfused(spaced, Include) by {
      assert spaced[1] != Pragma[1] && spaced[1] != Include[1];
      assert spaced[1..] == " pragma once";
    }
    OtherSpellingKept(tight, t);
    OtherSpellingKept(spaced, t);
  }

  // ---------------------------------------------------------------------
  // The bundle after the substitutions

  /** Two texts joined where the second starts with a character in neither directive. */
  lemma NeutraliseJoin(a: string, b: string)
    requires b != [] && b[0] !in Pragma && b[0] !in Include
    ensures Neutralise(a + b) == Neutralise(a) + Neutralise(b)
  {
    var ra, rb := Replace(a, Pragma, Marker + Pragma), Replace(b, Pragma, Marker + Pragma);
    JoinAt(a, b, Pragma, Marker + Pragma);
    assert rb != [] && rb[0] == b[0];
    JoinAt(ra, rb, Include, Marker + Include);
  }

  /** Text after a newline is neutralised on its own. */
  lemma NeutraliseAfterNewline(a: string, b: string)
    requires a != [] && a[|a| - 1] == '\n'
    ensures Neutralise(a + b) == Neutralise(a) + Neutralise(b)
  {
    var a' := a[..|a| - 1];
    DelimitersOutside();
    assert Neutralise(a + b) == Neutralise(a') + ['\n'] + Neutralise(b) by {
      assert a + b == a' + ['\n'] + b;
      NeutraliseSplit(a', '\n', b);
    }
    assert Neutralise(a) == Neutralise(a') + ['\n'] + Neutralise([]) by {
      assert a == a' + ['\n'] + [];
      NeutraliseSplit(a', '\n', []);
    }
    assert Neutralise(a) == Neutralise(a') + ['\n'] by {
      assert Neutralise([]) == [];
      AppendEmpty(Neutralise(a') + ['\n']);
    }
  }

  lemma AppendEmpty(t: string)
    ensures t + [] == t
  {
  }

  /** The banner's rules and label survive; only the path inside it is neutralised. */
  lemma NeutraliseBanner(path: string)
    ensures Neutralise(Banner(path)) == Banner(Neutralise(path))
  {
    var sep := Separator();
    var head := sep + "// FILE: ";
    var np := Neutralise(path);
    BannerShape(path);
    BannerShape(np);
    assert Neutralise(Banner(path)) == head + Neutralise(path + ['\n'] + sep) by {
      BannerHashFree();
      HashFreeKept(head, path + ['\n'] + sep);
    }
    assert Neutralise(path + ['\n'] + sep) == np + ['\n'] + Neutralise(sep) by {
      DelimitersOutside();
      NeutraliseSplit(path, '\n', sep);
    }
    assert Neutralise(sep) == sep by {
      BannerHashFree();
      HashFreeUnchanged(sep);
    }
  }

  /** The banner regrouped around its path. */
  lemma BannerShape(path: string)
    ensures Banner(path) == (Separator() + "// FILE: ") + (path + ['\n'] + Separator())
  {
  }

  /** Text without `#` is left as it is. */
  lemma HashFreeUnchanged(t: string)
    requires '#' !in t
    ensures Neutralise(t) == t
  {
    HashFreeKept(t, []);
    AppendEmpty(t);
    assert Neutralise([]) == [];
  }

  /** The blank line closing a segment survives the substitutions. */
  lemma BlankLineKept(content: string)
    ensures Neutralise(content + "\n\n") == Neutralise(content) + "\n\n"
  {
    assert Neutralise(content + "\n\n") == Neutralise(content) + ['\n'] + Neutralise("\n") by {
      DelimitersOutside();
      assert content + "\n\n" == content + ['\n'] + "\n";
      NeutraliseSplit(content, '\n', "\n");
    }
    assert Neutralise("\n") == "\n" by {
      HashFreeUnchanged("\n");
    }
    NewlinePair(Neutralise(content));
  }

  lemma NewlinePair(t: string)
    ensures t + ['\n'] + "\n" == t + "\n\n"
  {
  }

  /** The banner survives the substitutions; only the path and the content are neutralised. */
  lemma NeutraliseSegment(f: FileRecord)
    ensures Neutralise(Segment(f)) == NeutralSegment(f)
  {
    var b := Banner(f.path);
    assert Neutralise(Segment(f)) == Neutralise(b) + Neutralise(f.content + "\n\n") by {
      assert b[|b| - 1] == '\n' by {
        SeparatorShape();
      }
      assert Segment(f) == b + (f.content + "\n\n");
      NeutraliseAfterNewline(b, f.content + "\n\n");
    }
    assert Neutralise(b) == Banner(Neutralise(f.path)) by {
      NeutraliseBanner(f.path);
    }
    assert Neutralise(f.content + "\n\n") == Neutralise(f.content) + "\n\n" by {
      BlankLineKept(f.content);
    }
  }

  /** A segment starts with the rule's slash, so the substitutions cannot straddle its start. */
  lemma NeutraliseBeforeSegment(a: string, f: FileRecord)
    ensures Neutralise(a + Segment(f)) == Neutralise(a) + Neutralise(Segment(f))
  {
    assert Segment(f) != [] && Segment(f)[0] == '/' by {
      SeparatorShape();
      assert Segment(f)[0] == Separator()[0];
    }
    DelimitersOutside();
    NeutraliseJoin(a, Segment(f));
  }

  /** The substitutions act on each segment separately: the bundle is the neutralised segments in order. */
  lemma {:induction false} BundleBySegment(files: seq<FileRecord>)
    ensures Bundle(files) == Join(NeutralSegments(files))
    decreases |files|
  {
    if files == [] {
      assert Concat(files) == [];
    } else {
      var init, last := files[..|files| - 1], files[|files| - 1];
      assert Concat(files) == Concat(init) + Segment(last) by {
        assert files == init + [last];
        ConcatAppend(init, last);
      }
      assert Bundle(files) == Bundle(init) + Neutralise(Segment(last)) by {
        NeutraliseBeforeSegment(Concat(init), last);
      }
      assert Neutralise(Segment(last)) == NeutralSegment(last) by {
        NeutraliseSegment(last);
      }
      assert Bundle(init) == Join(NeutralSegments(init)) by {
        BundleBySegment(init);
      }
      assert Join(NeutralSegments(files)) == Join(NeutralSegments(init)) + NeutralSegment(last) by {
        NeutralSegmentsAppend(init, last);
        assert files == init + [last];
        JoinAppend(NeutralSegments(init), NeutralSegment(last));
      }
    }
  }

  lemma NeutralSegmentsAppend(files: seq<FileRecord>, f: FileRecord)
    ensures NeutralSegments(files + [f]) == NeutralSegments(files) + [NeutralSegment(f)]
  {
  }

  /** In the written bundle each file's neutralised segment sits at its own place, in list order. */
  lemma BundleLayout(files: seq<FileRecord>, i: nat)
    requires i < |files|
    ensures var ns := NeutralSegments(files);
      Offset(ns, i) + |ns[i]| == Offset(ns, i + 1) <= |Bundle(files)| &&
      Bundle(files)[Offset(ns, i)..Offset(ns, i + 1)] == NeutralSegment(files[i])
  {
    BundleBySegment(files);
    PieceAt(NeutralSegments(files), i);
  }

  /** A bundle of two files is their two neutralised segments. */
  lemma BundleOfTwo(a: FileRecord, b: FileRecord)
    ensures Bundle([a, b]) == NeutralSegment(a) + NeutralSegment(b)
  {
    BundleBySegment([a, b]);
    var ns := NeutralSegments([a, b]);
    assert ns == [ns[0], ns[1]];
    JoinTwo(ns[0], ns[1]);
  }

  /**
   * Two headers in a row, the first holding a pragma and the second a local
   * include (`a.h` with `#pragma once` then `int x;`, `b.h` with
   * `#include "a.h"` then `int y;`, is one instance): the bundle is the first
   * banner, the first content with the pragma commented out, then the second
   * banner and the second content with the include commented out.
   */
  lemma TwoHeaders(pa: string, x: string, pb: string, y: string)
    requires '#' !in pa && '#' !in x && '#' !in pb && '#' !in y
    ensures Bundle([FileRecord(pa, Pragma + x), FileRecord(pb, Include + y)]) ==
              (Banner(pa) + (Marker + Pragma + x) + "\n\n") + (Banner(pb) + (Marker + Include + y) + "\n\n")
  {
    var a, b := FileRecord(pa, Pragma + x), FileRecord(pb, Include + y);
    BundleOfTwo(a, b);
    assert Neutralise(pa) == pa && Neutralise(pb) == pb by {
      HashFreeUnchanged(pa);
      HashFreeUnchanged(pb);
    }
    assert Neutralise(Pragma + x) == Marker + Pragma + x by {
      LeadingPragma(x);
      HashFreeUnchanged(x);
    }
    assert Neutralise(Include + y) == Marker + Include + y by {
      LeadingInclude(y);
      HashFreeUnchanged(y);
    }
  }
}
