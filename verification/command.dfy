/**
 The transcoder command line of `merge_vids` in concat_go.py: the template
 `FFMPEG_CMD` formatted with the manifest and output names, then split on
 single spaces into the argument vector.
 */
module Command {

  /** The words of `FFMPEG_CMD` with the manifest and output names in
      place of its two `{}` holes. */
  function CommandWords(manifest: string, outFile: string): (words: seq<string>)
    ensures |words| == 10 && words[6] == manifest && words[9] == outFile
  {
    ["ffmpeg", "-f", "concat", "-safe", "0", "-i", manifest, "-c", "copy", outFile]
  }

  /** `' '.join(parts)`. */
  function JoinSpaces(parts: seq<string>): (s: string)
    requires |parts| >= 1
  {
    if |parts| == 1 then parts[0] else parts[0] + " " + JoinSpaces(parts[1..])
  }

  /** `FFMPEG_CMD.format(manifest, outFile)`: the template's words joined by
      single spaces. */
  function FfmpegCommand(manifest: string, outFile: string): (cmd: string)
    ensures cmd == "ffmpeg -f concat -safe 0 -i " + manifest + " -c copy " + outFile
  {
    TemplateWords(manifest, outFile);
    JoinSpaces(CommandWords(manifest, outFile))
  }

  /** Joining the template's words one at a time gives the template text. */
  lemma TemplateWords(manifest: string, outFile: string)
    ensures JoinSpaces(CommandWords(manifest, outFile))
            == "ffmpeg -f concat -safe 0 -i " + manifest + " -c copy " + outFile
  {
    var w := CommandWords(manifest, outFile);
    TemplateHead(w, manifest, outFile);
    PrefixStep(w, 0, "-f concat -safe 0 -i ", "ffmpeg -f concat -safe 0 -i ", manifest + " -c copy " + outFile);
    assert w[0..] == w;
    Regroup("ffmpeg -f concat -safe 0 -i ", manifest, " -c copy ", outFile);
  }

  /** Concatenation is associative; the joins build the text from the right. */
  lemma Regroup(a: string, b: string, c: string, d: string)
    ensures a + (b + c + d) == a + b + c + d
  {
  }

  /** The words from `-f` on join to all of the template but its first word. */
  lemma TemplateHead(w: seq<string>, manifest: string, outFile: string)
    requires w == CommandWords(manifest, outFile)
    ensures JoinSpaces(w[1..]) == "-f concat -safe 0 -i " + (manifest + " -c copy " + outFile)
  {
    var tail := manifest + " -c copy " + outFile;
    TemplateMiddle(w, manifest, outFile);
    PrefixStep(w, 2, "-safe 0 -i ", "concat -safe 0 -i ", tail);
    PrefixStep(w, 1, "concat -safe 0 -i ", "-f concat -safe 0 -i ", tail);
  }

  /** The words from `-safe` on join to the second half of the template. */
  lemma TemplateMiddle(w: seq<string>, manifest: string, outFile: string)
    requires w == CommandWords(manifest, outFile)
    ensures JoinSpaces(w[3..]) == "-safe 0 -i " + (manifest + " -c copy " + outFile)
  {
    var tail := manifest + " -c copy " + outFile;
    TemplateTail(w, manifest, outFile);
    assert "" + tail == tail;
    PrefixStep(w, 5, "", "-i ", tail);
    PrefixStep(w, 4, "-i ", "0 -i ", tail);
    PrefixStep(w, 3, "0 -i ", "-safe 0 -i ", tail);
  }

  /** The last four words join to the manifest name, the copy flags and the output name. */
  lemma TemplateTail(w: seq<string>, manifest: string, outFile: string)
    requires w == CommandWords(manifest, outFile)
    ensures JoinSpaces(w[6..]) == manifest + " -c copy " + outFile
  {
    JoinStep(w, 8);
    JoinStep(w, 7);
    JoinStep(w, 6);
  }

  /** One more word in front of an already joined suffix. */
  lemma PrefixStep(w: seq<string>, k: nat, lit: string, lit': string, tail: string)
    requires k + 1 < |w|
    requires w[k] + " " + lit == lit'
    requires JoinSpaces(w[k + 1..]) == lit + tail
    ensures JoinSpaces(w[k..]) == lit' + tail
  {
    JoinStep(w, k);
  }

  lemma JoinStep(parts: seq<string>, k: nat)
    requires k + 1 < |parts|
    ensures JoinSpaces(parts[k..]) == parts[k] + " " + JoinSpaces(parts[k + 1..])
  {
    assert parts[k..][1..] == parts[k + 1..];
  }

  /** The position of the first space in `s`. */
  function FirstSpace(s: string): (k: nat)
    requires ' ' in s
    ensures k < |s| && s[k] == ' ' && ' ' !in s[..k]
  {
    if s[0] == ' ' then 0
    else
      var k := 1 + FirstSpace(s[1..]);
      assert s[..k] == [s[0]] + s[1..][..k - 1];
      k
  }

  /** Python's `s.split(' ')`: cut at every single space, keeping the empty
      pieces between adjacent spaces. */
  function SplitSpaces(s: string): (r: seq<string>)
    ensures |r| >= 1
    ensures forall i :: 0 <= i < |r| ==> ' ' !in r[i]
    decreases |s|
  {
    if ' ' !in s then [s]
    else
      var k := FirstSpace(s);
      var rest := SplitSpaces(s[k + 1..]);
      var r := [s[..k]] + rest;
      assert forall i :: 1 <= i < |r| ==> r[i] == rest[i - 1];
      r
  }

  /** Splitting undoes joining when no piece contains a space. */
  lemma {:induction false} SplitJoin(parts: seq<string>)
    requires |parts| >= 1
    requires forall i :: 0 <= i < |parts| ==> ' ' !in parts[i]
    ensures SplitSpaces(JoinSpaces(parts)) == parts
  {
    if |parts| > 1 {
      var w := parts[0];
      var t := JoinSpaces(parts[1..]);
      var s := w + " " + t;
      assert s[|w|] == ' ' && s[..|w|] == w;
      var k := FirstSpace(s);
      assert k == |w|;
      assert s[k + 1..] == t;
      SplitJoin(parts[1..]);
      assert [parts[0]] + parts[1..] == parts;
    }
  }

  /** Joining undoes splitting for every string. */
  lemma {:induction false} JoinSplit(s: string)
    ensures JoinSpaces(SplitSpaces(s)) == s
    decreases |s|
  {
    if ' ' in s {
      var k := FirstSpace(s);
      var head, tail := s[..k], s[k + 1..];
      var rest := SplitSpaces(tail);
      assert SplitSpaces(s) == [head] + rest;
      JoinSplit(tail);
      JoinCons(head, rest);
      assert s == head + " " + tail;
    }
  }

  /** Joining a word in front of a nonempty list puts one space after it. */
  lemma JoinCons(w: string, rest: seq<string>)
    requires |rest| >= 1
    ensures JoinSpaces([w] + rest) == w + " " + JoinSpaces(rest)
  {
    assert ([w] + rest)[1..] == rest;
  }

  /** `FfmpegCommand(...).split(' ')`: the argv handed to the transcoder.
      It is exactly the template's ten words, with the names in place,
      precisely when neither name contains a space; a space inside a name
      breaks that name into several arguments. */
  function FfmpegArgs(manifest: string, outFile: string): (argv: seq<string>)
    ensures |argv| >= 1
    ensures forall i :: 0 <= i < |argv| ==> ' ' !in argv[i]
    ensures JoinSpaces(argv) == FfmpegCommand(manifest, outFile)
    ensures argv == CommandWords(manifest, outFile) <==> ' ' !in manifest && ' ' !in outFile
  {
    var cmd := FfmpegCommand(manifest, outFile);
    JoinSplit(cmd);
    SpaceFreeNamesGiveTemplateWords(manifest, outFile);
    SplitSpaces(cmd)
  }

  lemma SpaceFreeNamesGiveTemplateWords(manifest: string, outFile: string)
    ensures SplitSpaces(FfmpegCommand(manifest, outFile)) == CommandWords(manifest, outFile)
            <==> ' ' !in manifest && ' ' !in outFile
  {
    var r := SplitSpaces(FfmpegCommand(manifest, outFile));
    if r == CommandWords(manifest, outFile) {
      assert r[6] == manifest && r[9] == outFile;
    }
    if ' ' !in manifest && ' ' !in outFile {
      var words := CommandWords(manifest, outFile);
      assert forall i :: 0 <= i < |words| ==> ' ' !in words[i];
      SplitJoin(words);
    }
  }
}
