/** Lists of string arguments between parentheses, separated by commas, with
    quotes and backslashes as in a shell. */
module ArgList {

  /** The words of `text` that a scan kept, and what it left unread. */
  datatype Scan = Scanned(word: string, rest: string) | BadEscape

  /** Scans one argument, up to an unquoted comma or parenthesis, the end of the
      text, or a full scratch buffer. `room` is what the buffer still takes. */
  function ScanArg(text: string, squote: bool, dquote: bool, room: nat): (r: Scan)
    ensures r.Scanned? ==> |r.rest| <= |text| && |r.word| <= room
    decreases |text|
  {
    if text == "" || room == 0 then Scanned("", text)
    else if text[0] == '"' && !squote then ScanArg(text[1..], squote, !dquote, room)
    else if text[0] == '\'' && !dquote then ScanArg(text[1..], !squote, dquote, room)
    else if text[0] == '\\' && !squote then
      if |text| == 1 then BadEscape
      else
        var (c, skip) := Unescape(text[1]);
        Prefixed(c, ScanArg(text[skip..], squote, dquote, room - 1))
    else if !squote && !dquote && (text[0] == ',' || text[0] == ')') then Scanned("", text)
    else Prefixed(text[0], ScanArg(text[1..], squote, dquote, room - 1))
  }

  function Prefixed(c: char, s: Scan): (r: Scan) {
    match s case Scanned(word, rest) => Scanned([c] + word, rest) case BadEscape => BadEscape
  }

  /** The character a backslash and `c` stand for, and how many are read. */
  function Unescape(c: char): (r: (char, nat))
    ensures 1 <= r.1 <= 2
  {
    if c == '\\' || c == ' ' || c == '"' || c == '\'' then (c, 2)
    else if c == 'r' then ('\r', 2)
    else if c == 'n' then ('\n', 2)
    else if c == 't' then ('\t', 2)
    else ('\\', 1)
  }

  datatype Result = Args(args: seq<string>, rest: string) | Error

  /** Scans arguments until one is not followed by a comma or `max` are read. */
  function ScanArgs(text: string, max: nat, size: nat): (r: Result)
    requires 0 < max && 0 < size
    ensures r.Args? ==> 0 < |r.args| <= max && |r.rest| <= |text|
    decreases max
  {
    match ScanArg(text, false, false, size - 1)
    case BadEscape => Error
    case Scanned(word, rest) =>
      if rest != "" && rest[0] != ',' && rest[0] != ')' then Error
      else if rest == "" || rest[0] == ')' || max == 1 then Args([word], rest)
      else match ScanArgs(rest[1..], max - 1, size)
        case Error => Error
        case Args(args, rest') => Args([word] + args, rest')
  }

  /** The arguments of a keyword that takes `min` to `max` of them, read from
      what follows it. `size` is that of the scratch buffer. */
  function MakeArgList(text: string, min: nat, max: nat, size: nat): (r: Result)
    requires 0 < size
    ensures r.Args? ==> |r.rest| <= |text| && min <= |r.args|
  {
    if text == "" || text[0] != '(' then
      // without parentheses there is one empty argument if one is mandatory
      var args := if max == 0 || min == 0 then [] else [""];
      if |args| < min then Error else Args(args, text)
    else
      var scanned := if max == 0 then Args([], text[1..]) else ScanArgs(text[1..], max, size);
      match scanned
      case Error => Error
      case Args(args, rest) =>
        if |args| < min || rest == "" || rest[0] != ')' then Error else Args(args, rest[1..])
  }

  // Writing arguments.

  function Escaped(s: string): (r: string) {
    if s == "" then ""
    else EscapedChar(s[0]) + Escaped(s[1..])
  }

  function Quoted(s: string): (r: string) {
    "\"" + Escaped(s) + "\""
  }

  function Joined(args: seq<string>): (r: string) {
    if args == [] then "" else if |args| == 1 then Quoted(args[0]) else Quoted(args[0]) + "," + Joined(args[1..])
  }

  lemma JoinedNothing()
    ensures Joined([]) == ""
  {
  }

  function EscapedChar(c: char): (r: string) {
    if c == '"' || c == '\\' then ['\\', c] else [c]
  }

  lemma ScanEscapedChar(c: char, next: string, room: nat)
    requires 0 < room
    ensures ScanArg(EscapedChar(c) + next, false, true, room) == Prefixed(c, ScanArg(next, false, true, room - 1))
  {
    var text := EscapedChar(c) + next;
    assert text[|EscapedChar(c)|..] == next;
  }

  lemma ScanClosingQuote(tail: string, room: nat)
    requires 0 < room
    ensures ScanArg("\"" + tail, false, true, room) == ScanArg(tail, false, false, room)
  {
    assert ("\"" + tail)[1..] == tail;
  }

  lemma {:induction false} ScanEscaped(s: string, tail: string, room: nat)
    requires |s| < room
    ensures ScanArg(Escaped(s) + "\"" + tail, false, true, room) == After(s, ScanArg(tail, false, false, room - |s|))
  {
    hide ScanArg;
    if s == "" {
      assert Escaped(s) + "\"" + tail == "\"" + tail;
      ScanClosingQuote(tail, room);
      assert forall w: string :: "" + w == w;
    } else {
      var next := Escaped(s[1..]) + "\"" + tail;
      assert Escaped(s) + "\"" + tail == EscapedChar(s[0]) + next;
      ScanEscapedChar(s[0], next, room);
      ScanEscaped(s[1..], tail, room - 1);
      hide EscapedChar, Escaped;
      match ScanArg(tail, false, false, room - |s|)
      case Scanned(word, rest) => assert [s[0]] + (s[1..] + word) == s + word;
      case BadEscape =>
    }
  }

  lemma ScanQuoted(s: string, tail: string, room: nat)
    requires |s| < room && tail != "" && (tail[0] == ',' || tail[0] == ')')
    ensures ScanArg(Quoted(s) + tail, false, false, room) == Scanned(s, tail)
  {
    ScanEscaped(s, tail, room);
    assert (Quoted(s) + tail)[1..] == Escaped(s) + "\"" + tail;
    assert s + "" == s;
  }

  /** Strings, which no zero byte can be part of, that fit in the scratch
      buffer. */
  ghost predicate Fit(args: seq<string>, size: nat) {
    forall i | 0 <= i < |args| :: |args[i]| + 1 < size && '\0' !in args[i]
  }

  lemma {:induction false} ScanJoined(args: seq<string>, tail: string, max: nat, size: nat)
    requires 0 < |args| <= max && Fit(args, size) && 0 < size && tail != "" && tail[0] == ')'
    ensures ScanArgs(Joined(args) + tail, max, size) == Args(args, tail)
    decreases |args|
  {
    hide ScanArg, Quoted;
    if |args| == 1 {
      assert args == [args[0]];
      ScanQuoted(args[0], tail, size - 1);
    } else {
      var next := "," + Joined(args[1..]) + tail;
      ScanQuoted(args[0], next, size - 1);
      assert Joined(args) + tail == Quoted(args[0]) + next;
      assert next[1..] == Joined(args[1..]) + tail;
      ScanJoined(args[1..], tail, max - 1, size);
      assert [args[0]] + args[1..] == args;
    }
  }

  /** Quoted and joined strings are read back, and nothing after them is. */
  lemma ArgsRoundTrip(args: seq<string>, rest: string, min: nat, max: nat, size: nat)
    requires min <= |args| <= max && (args == [] ==> max == 0) && Fit(args, size) && 0 < size
    ensures MakeArgList("(" + Joined(args) + ")" + rest, min, max, size) == Args(args, rest)
  {
    hide ScanArgs, Joined;
    var text, tail := "(" + Joined(args) + ")" + rest, ")" + rest;
    assert args == [] ==> Joined(args) == "" by {
      JoinedNothing();
    }
    assert text[1..] == Joined(args) + tail && tail[1..] == rest;
    if args != [] {
      ScanJoined(args, tail, max, size);
    }
  }

  // The loops.

  function After(word: string, s: Scan): (r: Scan) {
    match s case Scanned(w, rest) => Scanned(word + w, rest) case BadEscape => BadEscape
  }

  lemma AfterChar(word: string, c: char, s: Scan)
    ensures After(word, Prefixed(c, s)) == After(word + [c], s)
  {
    match s
    case Scanned(w, rest) => assert word + ([c] + w) == word + [c] + w;
    case BadEscape =>
  }

  /** One step of the scan, by positions in the whole text. */
  lemma ScanAt(text: string, at: nat, squote: bool, dquote: bool, room: nat)
    requires at < |text| && 0 < room
    ensures ScanArg(text[at..], squote, dquote, room) ==
      var c := text[at];
      if c == '"' && !squote then ScanArg(text[at + 1..], squote, !dquote, room)
      else if c == '\'' && !dquote then ScanArg(text[at + 1..], !squote, dquote, room)
      else if c == '\\' && !squote then
        if at + 1 == |text| then BadEscape
        else
          var (d, skip) := Unescape(text[at + 1]);
          Prefixed(d, ScanArg(text[at + skip..], squote, dquote, room - 1))
      else if !squote && !dquote && (c == ',' || c == ')') then Scanned("", text[at..])
      else Prefixed(c, ScanArg(text[at + 1..], squote, dquote, room - 1))
  {
    assert text[at..][0] == text[at] && text[at..][1..] == text[at + 1..];
    if at + 1 < |text| {
      assert text[at..][1] == text[at + 1] && text[at..][2..] == text[at + 2..];
    }
  }

  lemma ScanStops(text: string, squote: bool, dquote: bool, room: nat)
    ensures text == "" || room == 0 ==> ScanArg(text, squote, dquote, room) == Scanned("", text)
  {
  }

  /** Reads one argument from position `at` into the scratch buffer. */
  method ReadArg(text: string, at0: nat, size: nat) returns (ok: bool, word: string, at: nat)
    requires at0 <= |text| && 0 < size
    ensures at0 <= at <= |text|
    ensures ScanArg(text[at0..], false, false, size - 1) == if ok then Scanned(word, text[at..]) else BadEscape
  {
    hide ScanArg, Unescape, Prefixed;
    var squote, dquote := false, false;
    word, at, ok := "", at0, true;
    ghost var all := ScanArg(text[at0..], false, false, size - 1);
    assert all == After("", all) by {
      assert forall w: string :: "" + w == w;
    }
    while at < |text| && |word| < size - 1
      invariant at0 <= at <= |text| && |word| <= size - 1
      invariant all == After(word, ScanArg(text[at..], squote, dquote, size - 1 - |word|))
      decreases |text| - at
    {
      var c := text[at];
      ScanAt(text, at, squote, dquote, size - 1 - |word|);
      if c == '"' && !squote {
        dquote, at := !dquote, at + 1;
        continue;
      } else if c == '\'' && !dquote {
        squote, at := !squote, at + 1;
        continue;
      } else if c == '\\' && !squote {
        if at + 1 == |text| {
          return false, "", at;
        }
        var (d, skip) := Unescape(text[at + 1]);
        AfterChar(word, d, ScanArg(text[at + skip..], squote, dquote, size - 2 - |word|));
        word, at := word + [d], at + skip;
      } else {
        if !squote && !dquote && (c == ',' || c == ')') {
          break;
        }
        AfterChar(word, c, ScanArg(text[at + 1..], squote, dquote, size - 2 - |word|));
        word, at := word + [c], at + 1;
      }
    }
    ScanStops(text[at..], squote, dquote, size - 1 - |word|);
    assert word + "" == word;
  }

  function AfterArgs(args: seq<string>, r: Result): (s: Result) {
    match r case Args(more, rest) => Args(args + more, rest) case Error => Error
  }

  lemma AfterOneMore(args: seq<string>, word: string, r: Result)
    ensures AfterArgs(args + [word], r) ==
            AfterArgs(args, match r { case Error => Error case Args(more, rest) => Args([word] + more, rest) })
  {
    match r
    case Args(more, rest) => assert args + ([word] + more) == args + [word] + more;
    case Error =>
  }

  /** Reads a whole list of arguments. */
  method ReadArgList(text: string, min: nat, max: nat, size: nat) returns (r: Result)
    requires 0 < size
    ensures r == MakeArgList(text, min, max, size)
  {
    hide ScanArg;
    var empty := text == "" || text[0] != '(';
    if empty {
      var args := if max == 0 || min == 0 then [] else [""];
      return if |args| < min then Error else Args(args, text);
    }
    var at, args: seq<string> := 1, [];
    ghost var all := if max == 0 then Args([], text[1..]) else ScanArgs(text[1..], max, size);
    assert max > 0 ==> all == AfterArgs(args, all) by {
      assert forall a: seq<string> :: args + a == a;
    }
    var more := max > 0;
    while more
      invariant 1 <= at <= |text| && |args| <= max && (more ==> |args| < max)
      invariant all == if more then AfterArgs(args, ScanArgs(text[at..], max - |args|, size))
                       else Args(args, text[at..])
      decreases more, max - |args|
    {
      ghost var from := at;
      var ok, word;
      ok, word, at := ReadArg(text, at, size);
      if !ok || (at < |text| && text[at] != ',' && text[at] != ')') {
        return Error;
      }
      if at == |text| || text[at] == ')' || |args| + 1 == max {
        args, more := args + [word], false;
      } else {
        assert text[at..][1..] == text[at + 1..];
        AfterOneMore(args, word, ScanArgs(text[at + 1..], max - |args| - 1, size));
        args, at := args + [word], at + 1;
      }
    }
    if |args| < min || at == |text| || text[at] != ')' {
      return Error;
    }
    assert text[at..][1..] == text[at + 1..];
    r := Args(args, text[at + 1..]);
  }
}
