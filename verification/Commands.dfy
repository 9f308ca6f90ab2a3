/**
  The command lines of the file server: how the client composes them
  (src/Client/UserFile/FTP_client.cc) and how `cmd_execute` reads them
  (src/Server/FTP_server/command/FTPcommand.cc).
*/
module Commands {
  import opened Prelude
  import opened Names

  /** What `>>` skips between words. */
  predicate IsSpace(c: char) {
    c == ' ' || 9 <= c as int <= 13
  }

  predicate Plain(s: string) {
    forall i | 0 <= i < |s| :: !IsSpace(s[i])
  }

  function SkipSpaces(s: string): (t: string)
    ensures |t| <= |s| && (|t| > 0 ==> !IsSpace(t[0]))
  {
    if |s| > 0 && IsSpace(s[0]) then SkipSpaces(s[1..]) else s
  }

  function WordEnd(s: string): (n: nat)
    ensures n <= |s| && Plain(s[..n]) && (n < |s| ==> IsSpace(s[n]))
  {
    if |s| == 0 || IsSpace(s[0]) then 0
    else
      var n := WordEnd(s[1..]);
      assert s[..1 + n] == [s[0]] + s[1..][..n];
      1 + n
  }

  /** `iss >> word`: the word, empty at the end of the stream, and what follows it. */
  function ReadWord(s: string): (r: (string, string))
    ensures Plain(r.0) && |r.0| + |r.1| <= |s| && (r.0 == "" ==> r.1 == "")
  {
    var t := SkipSpaces(s);
    (t[..WordEnd(t)], t[WordEnd(t)..])
  }

  datatype Line = Line(kind: string, path: string, from: string, to: string)

  /** `iss >> cmd_t >> cmd_m >> from_name >> to_name` */
  function Parse(s: string): Line {
    var (kind, a) := ReadWord(s);
    var (path, b) := ReadWord(a);
    var (from, c) := ReadWord(b);
    var (to, _) := ReadWord(c);
    Line(kind, path, from, to)
  }

  /** No name that is read contains a blank. */
  lemma ParsedPlain(s: string)
    ensures Plain(Parse(s).from) && Plain(Parse(s).to)
    ensures NoChar(Parse(s).from, ' ') && NoChar(Parse(s).to, ' ')
  {
    var l := Parse(s);
    assert Plain(l.from) && Plain(l.to);
  }

  // ---------- the words of a line ----------

  function Words(s: string): seq<string>
    decreases |s|
  {
    var (w, rest) := ReadWord(s);
    if w == "" then [] else [w] + Words(rest)
  }

  function WordAt(ws: seq<string>, i: nat): string {
    if i < |ws| then ws[i] else ""
  }

  lemma NoMoreWords()
    ensures Words("") == [] && ReadWord("") == ("", "")
  {
  }

  lemma NextWord(s: string)
    ensures var (w, rest) := ReadWord(s);
            && WordAt(Words(s), 0) == w
            && forall i: nat :: WordAt(Words(rest), i) == WordAt(Words(s), i + 1)
  {
    NoMoreWords();
    hide ReadWord;
  }

  lemma ParseIsWords(s: string)
    ensures var ws := Words(s); Parse(s) == Line(WordAt(ws, 0), WordAt(ws, 1), WordAt(ws, 2), WordAt(ws, 3))
  {
    hide ReadWord, Words, WordAt;
    var (_, a) := ReadWord(s);
    var (_, b) := ReadWord(a);
    var (_, c) := ReadWord(b);
    NextWord(s);
    NextWord(a);
    NextWord(b);
    NextWord(c);
    assert WordAt(Words(c), 0) == WordAt(Words(b), 1) == WordAt(Words(a), 2) == WordAt(Words(s), 3);
    assert WordAt(Words(b), 0) == WordAt(Words(a), 1) == WordAt(Words(s), 2);
  }

  lemma {:induction false} WordsPlain(s: string)
    ensures forall i | 0 <= i < |Words(s)| :: Words(s)[i] != "" && Plain(Words(s)[i])
    decreases |s|
  {
    var (w, rest) := ReadWord(s);
    if w != "" { WordsPlain(rest); }
  }

  lemma OneWord(w: string)
    requires Plain(w)
    ensures Words(w) == if w == "" then [] else [w]
  {
    NoMoreWords();
    hide Words, ReadWord, WordEnd, SkipSpaces;
    if w != "" {
      PlainEnd(w, "");
      FirstWord(w, "");
      assert w + "" == w && [w] + [] == [w];
    }
  }

  lemma {:induction false} PlainEnd(w: string, more: string)
    requires Plain(w) && (more == "" || IsSpace(more[0]))
    ensures WordEnd(w + more) == |w|
    decreases |w|
  {
    if |w| > 0 {
      assert (w + more)[1..] == w[1..] + more;
      PlainEnd(w[1..], more);
    }
  }

  lemma BlankFirst(c: char, s: string)
    requires IsSpace(c)
    ensures Words([c] + s) == Words(s)
  {
    assert ([c] + s)[1..] == s;
    assert SkipSpaces([c] + s) == SkipSpaces(s);
  }

  /** The words on both sides of a blank. */
  lemma {:induction false} WordsConcat(a: string, c: char, b: string)
    requires IsSpace(c)
    ensures Words(a + [c] + b) == Words(a) + Words(b)
    decreases |a|
  {
    hide Words, ReadWord, WordEnd, SkipSpaces;
    NoMoreWords();
    if |a| == 0 {
      assert a + [c] + b == [c] + b && [] + Words(b) == Words(b);
      BlankFirst(c, b);
    } else if IsSpace(a[0]) {
      var rest := a[1..];
      assert a + [c] + b == [a[0]] + (rest + [c] + b) && a == [a[0]] + rest;
      BlankFirst(a[0], rest + [c] + b);
      BlankFirst(a[0], rest);
      WordsConcat(rest, c, b);
    } else {
      var n := WordEnd(a);
      var w, rest := a[..n], a[n..];
      WordConcat(a, w, rest, c, b);
      WordsConcat(rest, c, b);
    }
  }

  lemma WordConcat(a: string, w: string, rest: string, c: char, b: string)
    requires IsSpace(c) && w != "" && Plain(w) && a == w + rest && (rest == "" || IsSpace(rest[0]))
    ensures |rest| < |a|
    ensures Words(rest + [c] + b) == Words(rest) + Words(b) ==> Words(a + [c] + b) == Words(a) + Words(b)
  {
    hide Words, ReadWord, WordEnd, SkipSpaces, Plain, IsSpace;
    var more := rest + [c] + b;
    Regroup(w, rest, c, b);
    PlainEnd(w, rest);
    PlainEnd(w, more);
    FirstWord(w, rest);
    FirstWord(w, more);
    RegroupWords([w], Words(rest), Words(b));
  }

  lemma Regroup(w: string, rest: string, c: char, b: string)
    ensures w + rest + [c] + b == w + (rest + [c] + b)
    ensures (rest + [c] + b)[0] == if rest == "" then c else rest[0]
  {
    assert w + rest + [c] == w + (rest + [c]);
  }

  lemma RegroupWords(x: seq<string>, y: seq<string>, z: seq<string>)
    ensures x + (y + z) == x + y + z
  {
  }

  lemma FirstWord(w: string, rest: string)
    requires w != "" && Plain(w) && WordEnd(w + rest) == |w|
    ensures Words(w + rest) == [w] + Words(rest)
  {
    var s := w + rest;
    assert SkipSpaces(s) == s;
    assert s[..|w|] == w && s[|w|..] == rest;
    assert ReadWord(s) == (w, rest);
  }

  // ---------- what arrives ----------

  /** The line the client sends for an upload or a download. */
  function Request(kind: string, path: string, from: string, to: string): string {
    kind + " " + path + " " + from + " " + to
  }

  /** The words of the path push the names to the right; they end up in their places only by chance
      unless there is exactly one. */
  predicate InPlace(path: seq<string>, from: string, to: string) {
    if |path| == 0 then from == "" && to == ""
    else if |path| == 1 then from == "" ==> to == ""
    else if |path| == 2 then from == path[1] && to == from
    else from == path[1] && to == path[2]
  }

  lemma RequestWords(kind: string, path: string, from: string, to: string)
    ensures Words(Request(kind, path, from, to)) == Words(kind) + Words(path) + Words(from) + Words(to)
  {
    hide Words;
    WordsConcat(kind, ' ', path);
    WordsConcat(kind + " " + path, ' ', from);
    WordsConcat(kind + " " + path + " " + from, ' ', to);
  }

  /** The server works on the names the client meant if and only if neither contains a blank and the
      path leaves them in their places - for a path of one word and two non-empty names, exactly if
      neither contains a blank. */
  lemma NamesArriveIff(kind: string, path: string, from: string, to: string)
    requires Plain(kind) && kind != ""
    ensures var l := Parse(Request(kind, path, from, to));
            && l.kind == kind
            && (l.from == from && l.to == to <==> Plain(from) && Plain(to) && InPlace(Words(path), from, to))
  {
    var s := Request(kind, path, from, to);
    hide Parse, Words, Request, Plain;
    RequestWords(kind, path, from, to);
    ParseIsWords(s);
    ParsedPlain(s);
    WordsPlain(path);
    OneWord(kind);
    if Plain(from) && Plain(to) {
      OneWord(from);
      OneWord(to);
      ByPlace(kind, Words(path), from, to);
    } else {
      assert Words(s)[0] == kind;
    }
  }

  lemma ByPlace(kind: string, path: seq<string>, from: string, to: string)
    requires forall i | 0 <= i < |path| :: path[i] != ""
    ensures var ws := [kind] + path + (if from == "" then [] else [from]) + (if to == "" then [] else [to]);
            && WordAt(ws, 0) == kind
            && (WordAt(ws, 2) == from && WordAt(ws, 3) == to <==> InPlace(path, from, to))
  {
  }

  // ---------- lines ----------

  predicate CrLfAt(s: string, p: nat) {
    p + 1 < |s| && s[p] == '\r' && s[p + 1] == '\n'
  }

  predicate NoCrLf(s: string) {
    forall p: nat | p < |s| :: !CrLfAt(s, p)
  }

  /** `find("\r\n")` */
  function FindCrLf(s: string): (p: Option<nat>)
    ensures p.Some? ==> CrLfAt(s, p.value) && forall q: nat | q < p.value :: !CrLfAt(s, q)
    ensures p.None? ==> NoCrLf(s)
    decreases |s|
  {
    if |s| < 2 then None
    else if CrLfAt(s, 0) then Some(0)
    else
      var p := FindCrLf(s[1..]);
      assert forall q: nat | q > 0 :: CrLfAt(s, q) <==> CrLfAt(s[1..], q - 1);
      if p.Some? then Some(p.value + 1) else None
  }

  /** What `process_input` gives to `handle_command`: the lines that end, but for empty ones. */
  function Lines(s: string): seq<string>
    decreases |s|
  {
    var p := FindCrLf(s);
    if p.None? then [] else (if p.value > 0 then [s[..p.value]] else []) + Lines(s[p.value + 2..])
  }

  const CRLF := "\r\n"

  lemma OneLine(r: string)
    requires r != "" && NoCrLf(r)
    ensures Lines(r + CRLF) == [r]
  {
    var s := r + CRLF;
    assert s[|r|] == '\r' && s[|r| + 1] == '\n';
    assert CrLfAt(s, |r|) && !NoCrLf(s);
    assert forall q: nat | q < |r| :: CrLfAt(s, q) ==> CrLfAt(r, q);
    hide FindCrLf;
    var p := FindCrLf(s).value;
    assert p == |r| && s[..p] == r && s[p + 2..] == "";
    assert Lines("") == [];
  }

  /** Each line that ends, unless it is empty, and then the lines behind it; what does not end is none. */
  lemma FirstLine(x: string, y: string)
    requires NoCrLf(x)
    ensures Lines(x + CRLF + y) == (if x == "" then [] else [x]) + Lines(y)
    ensures Lines(x) == []
  {
    var s := x + CRLF + y;
    assert s[|x|] == '\r' && s[|x| + 1] == '\n';
    assert CrLfAt(s, |x|) && !NoCrLf(s);
    assert forall q: nat | q < |x| :: CrLfAt(s, q) ==> CrLfAt(x, q);
    hide FindCrLf;
    var p := FindCrLf(s).value;
    assert p == |x| && s[..p] == x && s[p + 2..] == y;
  }

  lemma {:induction false} SomeLine(x: string, y: string)
    ensures Lines(x + [' '] + y + CRLF) != []
    decreases |x|
  {
    hide FindCrLf;
    var s := x + [' '] + y + CRLF;
    var n := |x| + 1 + |y|;
    assert s[|x|] == ' ' && s[n] == '\r' && s[n + 1] == '\n' && CrLfAt(s, n);
    if FindCrLf(s) == Some(0) {
      assert |x| >= 2;
      assert s[2..] == x[2..] + [' '] + y + CRLF;
      SomeLine(x[2..], y);
    }
  }

  /** The first line break comes no later than the one in the path, and not at the front. */
  lemma FirstBreak(a: string, path: string, c: string) returns (p: nat)
    requires a != "" && a[0] != '\r' && !NoCrLf(path)
    ensures FindCrLf(a + path + c) == Some(p) && 0 < p && p + 2 <= |a + path|
  {
    hide FindCrLf;
    var s := a + path + c;
    var q: nat :| q < |path| && CrLfAt(path, q);
    assert s[|a| + q] == path[q] && s[|a| + q + 1] == path[q + 1] && s[0] == a[0];
    var at: nat := |a| + q;
    assert at < |s| && CrLfAt(s, at);
    hide NoCrLf;
    assert !NoCrLf(s) by { BreakAt(s, at); }
    p := FindCrLf(s).value;
  }

  lemma BreakAt(s: string, p: nat)
    requires CrLfAt(s, p)
    ensures !NoCrLf(s)
  {
  }

  /** A line break in the path makes at least two commands. */
  lemma PathBreaks(a: string, path: string, y: string)
    requires a != "" && a[0] != '\r' && !NoCrLf(path)
    ensures |Lines(a + path + ([' '] + y + CRLF))| >= 2
  {
    hide FindCrLf, NoCrLf;
    var c := [' '] + y + CRLF;
    var p := FirstBreak(a, path, c);
    var x := (a + path)[p + 2..];
    SuffixOf(a + path, c, p + 2);
    SomeLine(x, y);
    assert x + c == x + [' '] + y + CRLF by { ThreeTogether(x, y); }
  }

  lemma ThreeTogether(x: string, y: string)
    ensures x + ([' '] + y + CRLF) == x + [' '] + y + CRLF
  {
    assert x + ([' '] + y) == x + [' '] + y;
  }

  lemma SuffixOf(x: string, y: string, n: nat)
    requires n <= |x|
    ensures (x + y)[n..] == x[n..] + y
  {
  }

  lemma RequestUnbroken(kind: string, path: string, from: string, to: string)
    requires Plain(kind) && NoCrLf(path) && Plain(from) && Plain(to)
    ensures NoCrLf(Request(kind, path, from, to))
  {
    PlainUnbroken(kind);
    PlainUnbroken(from);
    PlainUnbroken(to);
    hide Plain;
    JoinUnbroken(kind, path);
    JoinUnbroken(kind + " " + path, from);
    JoinUnbroken(kind + " " + path + " " + from, to);
  }

  lemma PlainUnbroken(s: string)
    requires Plain(s)
    ensures NoCrLf(s)
  {
  }

  lemma JoinUnbroken(a: string, b: string)
    requires NoCrLf(a) && NoCrLf(b)
    ensures NoCrLf(a + " " + b)
  {
    var s := a + " " + b;
    forall p: nat | p < |s| ensures !CrLfAt(s, p) {
      if p < |a| { assert !CrLfAt(a, p); }
      if p > |a| { assert !CrLfAt(b, p - |a| - 1); }
    }
  }

  lemma RequestCut(kind: string, path: string, from: string, to: string)
    requires Plain(kind) && kind != ""
    ensures Request(kind, path, from, to) + CRLF == (kind + " ") + path + ([' '] + (from + " " + to) + CRLF)
    ensures (kind + " ")[0] != '\r' && Request(kind, path, from, to) != ""
  {
    assert (kind + " ")[0] == kind[0] && !IsSpace(kind[0]);
    var r := Request(kind, path, from, to);
    assert |r| > 0;
    assert r == (kind + " ") + path + ([' '] + (from + " " + to));
  }

  /** Of what the client sends the server makes exactly one command on the pair the client meant if
      and only if there is no line break in the path, and neither name contains a blank, and the path
      leaves the names in their places. */
  lemma SentAsMeantIff(kind: string, path: string, from: string, to: string)
    requires Plain(kind) && kind != ""
    ensures var ls := Lines(Request(kind, path, from, to) + CRLF);
            (|ls| == 1 && Parse(ls[0]).kind == kind && Parse(ls[0]).from == from && Parse(ls[0]).to == to)
            <==> NoCrLf(path) && Plain(from) && Plain(to) && InPlace(Words(path), from, to)
  {
    var r := Request(kind, path, from, to);
    var ls := Lines(r + CRLF);
    RequestCut(kind, path, from, to);
    hide Plain, Lines, Parse, Request, InPlace, Words, NoCrLf;
    if |ls| == 1 { ParsedPlain(ls[0]); }
    if !NoCrLf(path) {
      PathBreaks(kind + " ", path, from + " " + to);
    } else if Plain(from) && Plain(to) {
      RequestUnbroken(kind, path, from, to);
      OneLine(r);
      NamesArriveIff(kind, path, from, to);
    }
  }
}
