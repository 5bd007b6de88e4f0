/**
 Quoting a command line for Windows: `make_command_line` of rabbitmq-c's
 tools/win32/process.c, and the rules by which the line is taken apart again.
 */
module CommandLine {

  function Slashes(n: nat): (s: string)
    ensures |s| == n && forall i :: 0 <= i < n ==> s[i] == '\\'
  {
    if n == 0 then "" else Slashes(n - 1) + "\\"
  }

  /** What one character of an argument becomes behind `b` backslashes that are written already. */
  function Emitted(c: char, b: nat): string {
    if c == '\"' then Slashes(b) + "\\\"" else [c]
  }

  function Pending(c: char, b: nat): nat {
    if c == '\\' then b + 1 else 0
  }

  /** What is still written for the rest `s` of an argument when the last `b` characters were backslashes. */
  function Escaped(s: string, b: nat): string {
    if s == "" then Slashes(b) else Emitted(s[0], b) + Escaped(s[1..], Pending(s[0], b))
  }

  function Quoted(arg: string): string {
    "\"" + Escaped(arg, 0) + "\""
  }

  function Line(argv: seq<string>): string {
    if argv == [] then ""
    else Quoted(argv[0]) + if |argv| == 1 then "" else " " + Line(argv[1..])
  }

  // ------------------------------------------------------------------
  // The buffer
  // ------------------------------------------------------------------

  /** The worst case: every character escaped, quotes and a separator around each argument, a final zero. */
  function WorstCase(argv: seq<string>): nat {
    if argv == [] then 0 else 2 * |argv[0]| + 3 + WorstCase(argv[1..])
  }

  predicate AllEscaped(s: string) {
    forall i :: 0 <= i < |s| ==> s[i] == '\"' || s[i] == '\\'
  }

  lemma {:induction false} EscapedLength(s: string, b: nat)
    ensures |Escaped(s, b)| <= 2 * |s| + b
    ensures |Escaped(s, b)| == 2 * |s| + b <==> AllEscaped(s)
  {
    if s != "" {
      assert AllEscaped(s) <==> (s[0] == '\"' || s[0] == '\\') && AllEscaped(s[1..]) by {
        assert forall i :: 1 <= i < |s| ==> s[i] == s[1..][i - 1];
      }
      EscapedLength(s[1..], Pending(s[0], b));
    }
  }

  /** The line never outgrows its buffer, and fills it exactly when every character is a quote or a backslash. */
  lemma {:induction false} LineLength(argv: seq<string>)
    requires argv != []
    ensures |Line(argv)| + 1 <= WorstCase(argv)
    ensures |Line(argv)| + 1 == WorstCase(argv) <==> forall i :: 0 <= i < |argv| ==> AllEscaped(argv[i])
  {
    EscapedLength(argv[0], 0);
    if |argv| > 1 {
      LineLength(argv[1..]);
      assert forall i :: 1 <= i < |argv| ==> argv[i] == argv[1..][i - 1];
    }
  }

  // ------------------------------------------------------------------
  // The code
  // ------------------------------------------------------------------

  /** The first loop of `make_command_line`. */
  method ComputeLength(argv: seq<string>) returns (length: nat)
    requires argv != []
    ensures length == WorstCase(argv)
  {
    length := 1;
    var i := 0;
    assert argv[0..] == argv;
    while true
      invariant 0 <= i < |argv|
      invariant length + 2 + WorstCase(argv[i..]) == WorstCase(argv) + 3
      decreases |argv| - i
    {
      length := length + |argv[i]| * 2;
      assert argv[i..][1..] == argv[i + 1..];
      i := i + 1;
      if i == |argv| {
        break;
      }
      length := length + 3;
    }
    length := length + 2;
  }

  /** `*dest++ = c` */
  method Put(buf: array<char>, dest: nat, c: char) returns (next: nat)
    requires dest < buf.Length
    modifies buf
    ensures next == dest + 1 && buf[..next] == old(buf[..dest]) + [c]
  {
    buf[dest] := c;
    next := dest + 1;
  }

  /** `for (; backslashes; backslashes--) *dest++ = '\\'` */
  method PutSlashes(buf: array<char>, dest: nat, n: nat) returns (next: nat)
    requires dest + n <= buf.Length
    modifies buf
    ensures next == dest + n && buf[..next] == old(buf[..dest]) + Slashes(n)
  {
    next := dest;
    var backslashes := n;
    while backslashes > 0
      invariant 0 <= backslashes <= n && next == dest + (n - backslashes)
      invariant buf[..next] == old(buf[..dest]) + Slashes(n - backslashes)
    {
      next := Put(buf, next, '\\');
      backslashes := backslashes - 1;
    }
  }

  /** The switch over one character. */
  method PutCharacter(buf: array<char>, dest: nat, c: char, backslashes: nat) returns (next: nat, pending: nat)
    requires dest + |Emitted(c, backslashes)| <= buf.Length
    modifies buf
    ensures next == dest + |Emitted(c, backslashes)| && buf[..next] == old(buf[..dest]) + Emitted(c, backslashes)
    ensures pending == Pending(c, backslashes)
  {
    ghost var before := buf[..dest];
    pending := 0;
    if c == '\"' {
      next := PutSlashes(buf, dest, backslashes);
      next := Put(buf, next, '\\');
      next := Put(buf, next, '\"');
      assert before + (Slashes(backslashes) + "\\\"") == before + Slashes(backslashes) + "\\" + "\"";
    } else {
      if c == '\\' {
        pending := backslashes + 1;
      }
      next := Put(buf, dest, c);
    }
  }

  lemma EscapedFrom(src: string, i: nat, b: nat)
    requires i <= |src|
    ensures i < |src| ==> Escaped(src[i..], b) == Emitted(src[i], b) + Escaped(src[i + 1..], Pending(src[i], b))
    ensures i == |src| ==> Escaped(src[i..], b) == Slashes(b)
  {
    assert i < |src| ==> src[i..][0] == src[i] && src[i..][1..] == src[i + 1..];
  }

  /** One argument between its quotes. */
  method PutArgument(buf: array<char>, start: nat, src: string) returns (dest: nat)
    requires start + |Quoted(src)| <= buf.Length
    modifies buf
    ensures dest == start + |Quoted(src)| && buf[..dest] == old(buf[..start]) + Quoted(src)
  {
    hide Emitted, Pending, Slashes, Escaped;
    ghost var whole := old(buf[..start]) + "\"" + Escaped(src, 0);
    var backslashes := 0;
    dest := Put(buf, start, '\"');
    var i := 0;
    assert src[0..] == src;
    while i < |src|
      invariant 0 <= i <= |src| && 0 <= dest <= buf.Length
      invariant buf[..dest] + Escaped(src[i..], backslashes) == whole
    {
      ghost var more := Escaped(src[i + 1..], Pending(src[i], backslashes));
      EscapedFrom(src, i, backslashes);
      WriteNext(buf[..dest], Emitted(src[i], backslashes), more, whole);
      dest, backslashes := PutCharacter(buf, dest, src[i], backslashes);
      i := i + 1;
    }
    EscapedFrom(src, i, backslashes);
    assert Slashes(backslashes) + "" == Slashes(backslashes);
    WriteNext(buf[..dest], Slashes(backslashes), "", whole);
    dest := PutSlashes(buf, dest, backslashes);
    dest := Put(buf, dest, '\"');
    assert old(buf[..start]) + Quoted(src) == whole + "\"";
  }

  /** What is written and what is left make up the whole line; then `x` is written. */
  lemma WriteNext(written: string, x: string, more: string, whole: string)
    requires written + (x + more) == whole
    ensures (written + x) + more == whole && |written| + |x| + |more| == |whole|
  {
    assert (written + x) + more == written + (x + more);
  }

  /** `make_command_line`: the line and its final zero are written within a buffer of the computed length. */
  method MakeCommandLine(argv: seq<string>) returns (buf: array<char>, used: nat)
    requires argv != []
    ensures fresh(buf) && buf.Length == WorstCase(argv) && used <= buf.Length
    ensures buf[..used] == Line(argv) + ['\0']
  {
    hide Quoted, Line, WorstCase;
    var length := ComputeLength(argv);
    buf := new char[length];
    LineLength(argv);
    var dest, i := 0, 0;
    assert argv[0..] == argv;
    while true
      invariant 0 <= i < |argv| && 0 <= dest < buf.Length
      invariant buf[..dest] + Line(argv[i..]) == Line(argv)
      decreases |argv| - i
    {
      ghost var before, more := buf[..dest], LineBehind(argv, i);
      WriteNext(before, Quoted(argv[i]), more, Line(argv));
      dest := PutArgument(buf, dest, argv[i]);
      i := i + 1;
      if i == |argv| {
        break;
      }
      WriteNext(buf[..dest], " ", Line(argv[i..]), Line(argv));
      dest := Put(buf, dest, ' ');
    }
    dest := Put(buf, dest, '\0');
    used := dest;
  }

  /** What follows the `i`-th argument. */
  ghost function LineBehind(argv: seq<string>, i: nat): (more: string)
    requires i < |argv|
    ensures Line(argv[i..]) == Quoted(argv[i]) + more
  {
    assert argv[i..][1..] == argv[i + 1..] && argv[i..][0] == argv[i];
    if i + 1 == |argv| then "" else " " + Line(argv[i + 1..])
  }

  // ------------------------------------------------------------------
  // Taking the line apart
  // ------------------------------------------------------------------

  /**
   The rules of `CommandLineToArgvW` that the source's comment gives: backslashes
   escape only in front of a double quote, where a pair stands for one and an odd one
   makes the quote literal; other quotes switch quoting on and off, and an unquoted
   space ends an argument. `slashes` backslashes have just been read.
   */
  function Parsed(line: string, quoted: bool, slashes: nat, arg: string, begun: bool): seq<string> {
    if line == "" then
      if begun then [arg + Slashes(slashes)] else []
    else if line[0] == '\\' then
      Parsed(line[1..], quoted, slashes + 1, arg, true)
    else if line[0] == '\"' then
      if slashes % 2 == 1 then Parsed(line[1..], quoted, 0, arg + Slashes(slashes / 2) + "\"", true)
      else Parsed(line[1..], !quoted, 0, arg + Slashes(slashes / 2), true)
    else if line[0] == ' ' && !quoted then
      (if begun then [arg + Slashes(slashes)] else []) + Parsed(line[1..], false, 0, "", false)
    else
      Parsed(line[1..], quoted, 0, arg + Slashes(slashes) + [line[0]], true)
  }

  /** A run of backslashes is counted. */
  lemma {:induction false} ParsedSlashes(n: nat, line: string, quoted: bool, slashes: nat, arg: string)
    ensures Parsed(Slashes(n) + line, quoted, slashes, arg, true) == Parsed(line, quoted, slashes + n, arg, true)
  {
    if n == 0 {
      assert Slashes(0) + line == line;
    } else {
      ParsedSlashes(n - 1, "\\" + line, quoted, slashes, arg);
      assert Slashes(n) + line == Slashes(n - 1) + ("\\" + line);
    }
  }

  /** What was escaped, up to the closing quote, is read back as it was. */
  lemma {:induction false} ParsedEscaped(s: string, b: nat, arg: string, line: string)
    ensures Parsed(Escaped(s, b) + "\"" + line, true, b, arg, true)
            == Parsed(line, false, 0, arg + Slashes(b) + s, true)
    decreases |s|
  {
    hide Parsed, Emitted;
    if s == "" {
      ParsedClose(b, arg, line);
      assert arg + Slashes(b) + s == arg + Slashes(b);
    } else {
      var c, more := s[0], Escaped(s[1..], Pending(s[0], b)) + "\"" + line;
      assert Escaped(s, b) + "\"" + line == Emitted(c, b) + more;
      ParsedEmitted(c, b, arg, more);
      if c == '\\' {
        ParsedEscaped(s[1..], b + 1, arg, line);
        assert arg + Slashes(b + 1) + s[1..] == arg + Slashes(b) + s;
      } else {
        ParsedEscaped(s[1..], 0, arg + Slashes(b) + [c], line);
        assert arg + Slashes(b) + [c] + Slashes(0) + s[1..] == arg + Slashes(b) + s;
      }
    }
  }

  lemma ParsedClose(b: nat, arg: string, line: string)
    ensures Parsed(Slashes(b) + "\"" + line, true, b, arg, true) == Parsed(line, false, 0, arg + Slashes(b), true)
  {
    assert Slashes(b) + "\"" + line == Slashes(b) + ("\"" + line);
    ParsedSlashes(b, "\"" + line, true, b, arg);
    assert ("\"" + line)[1..] == line;
  }

  lemma ParsedEmitted(c: char, b: nat, arg: string, more: string)
    ensures Parsed(Emitted(c, b) + more, true, b, arg, true)
         == Parsed(more, true, Pending(c, b), if c == '\\' then arg else arg + Slashes(b) + [c], true)
  {
    if c == '\"' {
      var quote := "\"" + more;
      assert Emitted(c, b) + more == Slashes(b) + ("\\" + quote);
      ParsedSlashes(b, "\\" + quote, true, b, arg);
      assert ("\\" + quote)[1..] == quote && quote[1..] == more;
    } else {
      assert ([c] + more)[1..] == more;
    }
  }

  /** Taking a line apart gives back the arguments it was made of, whatever characters are in them. */
  lemma {:induction false} LineIsParsedBack(argv: seq<string>)
    ensures Parsed(Line(argv), false, 0, "", false) == argv
  {
    if argv != [] {
      var more := if |argv| == 1 then "" else " " + Line(argv[1..]);
      assert Line(argv) == "\"" + (Escaped(argv[0], 0) + "\"" + more);
      assert Line(argv)[1..] == Escaped(argv[0], 0) + "\"" + more;
      ParsedEscaped(argv[0], 0, "", more);
      assert "" + Slashes(0) == "" && "" + Slashes(0) + argv[0] == argv[0];
      if |argv| > 1 {
        assert more[1..] == Line(argv[1..]);
        LineIsParsedBack(argv[1..]);
        assert argv == [argv[0]] + argv[1..];
      }
      assert argv[0] + Slashes(0) == argv[0];
    }
  }
}
