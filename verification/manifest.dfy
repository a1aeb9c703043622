/**
 The concat manifest written by `merge_vids` in concat_go.py. Each path
 becomes the line `file '<path>'` with every single quote in the path
 replaced by two backslashes and a quote.
 */
module Manifest {
  import opened Wrappers

  /** How many single quotes a path holds. */
  function QuoteCount(p: string): (n: nat)
    ensures n <= |p|
  {
    if p == [] then 0 else (if p[0] == '\'' then 1 else 0) + QuoteCount(p[1..])
  }

  /** Every quote in `t` is preceded by two backslashes. */
  predicate QuotesGuarded(t: string)
  {
    forall i :: 0 <= i < |t| && t[i] == '\'' ==> 2 <= i && t[i - 2] == '\\' && t[i - 1] == '\\'
  }

  /** `vid.replace("'", "\\\\'")`: each quote becomes backslash, backslash, quote. */
  function Escape(p: string): (r: string)
    ensures |r| == |p| + 2 * QuoteCount(p)
    ensures '\'' !in p ==> r == p
    ensures QuotesGuarded(r)
    ensures '\n' !in p ==> '\n' !in r
  {
    if p == [] then []
    else
      var head := if p[0] == '\'' then "\\\\'" else [p[0]];
      var rest := Escape(p[1..]);
      assert p == [p[0]] + p[1..];
      GuardedAppend(head, rest);
      head + rest
  }

  lemma GuardedAppend(head: string, rest: string)
    requires head == "\\\\'" || (|head| == 1 && head[0] != '\'')
    requires QuotesGuarded(rest)
    ensures QuotesGuarded(head + rest)
  {
    var t := head + rest;
    forall i | 0 <= i < |t| && t[i] == '\''
      ensures 2 <= i && t[i - 2] == '\\' && t[i - 1] == '\\'
    {
      if i >= |head| {
        assert t[i] == rest[i - |head|];
        if i - |head| >= 2 {
          assert t[i - 2] == rest[i - |head| - 2] && t[i - 1] == rest[i - |head| - 1];
        }
      }
    }
  }

  /** Removes the two backslashes in front of every quote. */
  function Unescape(t: string): (p: string)
    ensures |p| <= |t|
  {
    if |t| >= 3 && t[0] == '\\' && t[1] == '\\' && t[2] == '\'' then ['\''] + Unescape(t[3..])
    else if t == [] then []
    else [t[0]] + Unescape(t[1..])
  }

  /** Unescaping recovers the original path. */
  lemma {:induction false} UnescapeEscape(p: string)
    ensures Unescape(Escape(p)) == p
  {
    if p != [] {
      var rest := Escape(p[1..]);
      UnescapeEscape(p[1..]);
      if p[0] == '\'' {
        assert Escape(p) == "\\\\'" + rest;
        assert (Escape(p))[3..] == rest;
      } else {
        var t := [p[0]] + rest;
        assert Escape(p) == t;
        if |t| >= 3 && t[0] == '\\' && t[1] == '\\' {
          assert rest[1] == t[2];
          assert t[2] != '\'';
        }
        assert t[1..] == rest;
      }
    }
  }

  /** Distinct paths give distinct escaped paths. */
  lemma EscapeInjective(p: string, q: string)
    requires Escape(p) == Escape(q)
    ensures p == q
  {
    UnescapeEscape(p);
    UnescapeEscape(q);
  }

  /** One manifest line: `file '<escaped path>'` and a newline. */
  function ManifestLine(p: string): (line: string)
    ensures |line| == |p| + 2 * QuoteCount(p) + 8
    ensures line[..6] == "file '" && line[|line| - 2..] == "'\n"
    ensures line[6..|line| - 2] == Escape(p)
  {
    "file '" + Escape(p) + "'\n"
  }

  /** The manifest text: one line per video, in the given order. */
  function ManifestText(paths: seq<string>): (text: string)
    ensures text == [] <==> paths == []
    ensures |text| >= 8 * |paths|
  {
    if paths == [] then [] else ManifestLine(paths[0]) + ManifestText(paths[1..])
  }

  /** With newline-free paths the manifest holds exactly one newline per
      path: one line per video. */
  lemma {:induction false} ManifestLineCount(paths: seq<string>)
    requires forall i :: 0 <= i < |paths| ==> '\n' !in paths[i]
    ensures multiset(ManifestText(paths))['\n'] == |paths|
  {
    if paths != [] {
      var line := ManifestLine(paths[0]);
      var rest := ManifestText(paths[1..]);
      LineHoldsOneNewline(paths[0]);
      ManifestLineCount(paths[1..]);
      assert ManifestText(paths) == line + rest;
      assert multiset(line + rest) == multiset(line) + multiset(rest);
    }
  }

  /** A newline-free path gives a line whose only newline is its last character. */
  lemma LineHoldsOneNewline(p: string)
    requires '\n' !in p
    ensures multiset(ManifestLine(p))['\n'] == 1
  {
  }

  /** Splits off the text up to the first newline, if there is one. */
  function ReadLine(t: string): (r: Option<(string, string)>)
    ensures r.Some? ==> |r.value.1| < |t|
  {
    if t == [] then None
    else if t[0] == '\n' then Some(([], t[1..]))
    else match ReadLine(t[1..])
      case None => None
      case Some((line, rest)) => Some(([t[0]] + line, rest))
  }

  /** Reads one line back as a path, if it has the shape `file '...'`. */
  function ParseLine(line: string): (p: Option<string>)
    ensures p.Some? ==> |line| >= 7 && line[..6] == "file '"
  {
    if |line| >= 7 && line[..6] == "file '" && line[|line| - 1] == '\'' then
      Some(Unescape(line[6..|line| - 1]))
    else None
  }

  /** Reads a whole manifest back, line by line. */
  function ParseManifest(t: string): (paths: Option<seq<string>>)
    ensures t == [] ==> paths == Some([])
    decreases |t|
  {
    if t == [] then Some([])
    else match ReadLine(t)
      case None => None
      case Some((line, rest)) =>
        match ParseLine(line)
        case None => None
        case Some(p) =>
          match ParseManifest(rest)
          case None => None
          case Some(ps) => Some([p] + ps)
  }

  lemma {:induction false} ReadLineStopsAtNewline(line: string, rest: string)
    requires '\n' !in line
    ensures ReadLine(line + "\n" + rest) == Some((line, rest))
  {
    if line != [] {
      ReadLineStopsAtNewline(line[1..], rest);
      assert (line + "\n" + rest)[1..] == line[1..] + "\n" + rest;
      assert [line[0]] + line[1..] == line;
    } else {
      assert line + "\n" + rest == "\n" + rest;
    }
  }

  /** The line of one path, without its newline, reads back as that path. */
  lemma LineBodyReadsBack(p: string)
    requires '\n' !in p
    ensures '\n' !in "file '" + Escape(p) + "'"
    ensures ParseLine("file '" + Escape(p) + "'") == Some(p)
  {
    var e := Escape(p);
    var body := "file '" + e + "'";
    forall i | 0 <= i < |body|
      ensures body[i] != '\n'
    {
      if 6 <= i < |body| - 1 {
        assert body[i] == e[i - 6];
      }
    }
    assert body[..6] == "file '";
    assert body[6..|body| - 1] == e;
    UnescapeEscape(p);
  }

  /** A manifest of newline-free paths reads back as exactly those paths,
      in order: one line per video, nothing lost or reordered. */
  lemma {:induction false} ManifestRoundTrip(paths: seq<string>)
    requires forall i :: 0 <= i < |paths| ==> '\n' !in paths[i]
    ensures ParseManifest(ManifestText(paths)) == Some(paths)
  {
    if paths != [] {
      var p := paths[0];
      var body := "file '" + Escape(p) + "'";
      var rest := ManifestText(paths[1..]);
      ManifestTextCons(paths);
      LineBodyReadsBack(p);
      ReadLineStopsAtNewline(body, rest);
      ManifestRoundTrip(paths[1..]);
      ParseStep(body + "\n" + rest, body, rest, p);
      assert [p] + paths[1..] == paths;
    }
  }

  /** The manifest of a nonempty list: the first line's body, a newline, then the rest. */
  lemma ManifestTextCons(paths: seq<string>)
    requires paths != []
    ensures ManifestText(paths) == ("file '" + Escape(paths[0]) + "'") + "\n" + ManifestText(paths[1..])
  {
    var body := "file '" + Escape(paths[0]) + "'";
    var rest := ManifestText(paths[1..]);
    assert ManifestText(paths) == ManifestLine(paths[0]) + rest;
    assert ManifestLine(paths[0]) == body + "\n";
    assert (body + "\n") + rest == body + "\n" + rest;
  }

  /** One parsed line in front of a manifest that reads back. */
  lemma ParseStep(t: string, line: string, rest: string, p: string)
    requires ReadLine(t) == Some((line, rest))
    requires ParseLine(line) == Some(p)
    requires ParseManifest(rest).Some?
    ensures ParseManifest(t) == Some([p] + ParseManifest(rest).value)
  {
  }

  /** A path holding a newline splits its line in two, and the manifest no
      longer reads back. */
  lemma NewlineInPathBreaksManifest()
    ensures ParseManifest(ManifestText(["a\nb"])) == None
  {
    var t := ManifestText(["a\nb"]);
    assert t == "file 'a\nb'\n";
    ReadLineStopsAtNewline("file 'a", "b'\n");
    assert t == "file 'a" + "\n" + "b'\n";
  }
}
