/** Conditions of the configuration language: "!", "&&", "||", parentheses,
    numbers and predicates with arguments. */
module CfgCond {
  import opened Common
  import ArgList

  const MAX_DEPTH := 1024

  // Syntax trees.

  datatype Term =
    | Number(neg: bool, value: bool)
    | Paren(neg: bool, expr: Expr)
    | Call(neg: bool, word: string, args: seq<string>)

  datatype Conj = Conj(left: Term, right: Option<Conj>)

  datatype Expr = Expr(left: Conj, right: Option<Expr>)

  /** Each predicate with the number of arguments it takes. */
  const PREDICATES: map<string, nat> := map[
    "defined" := 1, "feature" := 1, "streq" := 2, "strneq" := 2, "strstr" := 2,
    "version_atleast" := 1, "version_before" := 1, "openssl_version_atleast" := 1, "openssl_version_before" := 1,
    "ssllib_name_startswith" := 1, "awslc_api_atleast" := 1, "awslc_api_before" := 1, "enabled" := 1, "fips_mode" := 0
  ]

  // Lexical parts.

  function SkipBlanks(s: string): (r: string)
    ensures |r| <= |s|
    ensures r == "" || (r[0] != ' ' && r[0] != '\t')
  {
    if s != "" && (s[0] == ' ' || s[0] == '\t') then SkipBlanks(s[1..]) else s
  }

  function DigitValue(c: char): (v: nat) {
    if '0' <= c <= '9' then c as nat - '0' as nat
    else if 'a' <= c <= 'z' then c as nat - 'a' as nat + 10
    else if 'A' <= c <= 'Z' then c as nat - 'A' as nat + 10
    else 36
  }

  /** How many of the first characters are digits in that base, and whether one
      of them is not zero. */
  function Digits(s: string, base: nat): (r: (nat, bool))
    ensures r.0 <= |s|
  {
    if s == "" || DigitValue(s[0]) >= base then (0, false)
    else var (n, nonzero) := Digits(s[1..], base); (n + 1, nonzero || DigitValue(s[0]) != 0)
  }

  predicate IsSpace(c: char) {
    c == ' ' || '\t' <= c <= '\r'
  }

  /** A number in the notations of strtol() with base zero: whether it is not
      zero, and what follows; nothing if there is no digit. */
  function ReadNumber(s: string): (r: Option<(bool, string)>)
    ensures r.Some? ==> |r.value.1| < |s|
  {
    if s == "" then None
    else if IsSpace(s[0]) then ReadNumber(s[1..])
    else
      var t := if s[0] == '+' || s[0] == '-' then s[1..] else s;
      if |t| >= 3 && t[0] == '0' && (t[1] == 'x' || t[1] == 'X') && DigitValue(t[2]) < 16 then
        var (n, nonzero) := Digits(t[2..], 16); Some((nonzero, t[2..][n..]))
      else
        var (n, nonzero) := Digits(t, if t != "" && t[0] == '0' then 8 else 10);
        if n == 0 then None else Some((nonzero, t[n..]))
  }

  /** The characters before the first space or opening parenthesis. */
  function Word(s: string): (r: string)
    ensures |r| <= |s|
  {
    if s == "" || s[0] == ' ' || s[0] == '(' then "" else [s[0]] + Word(s[1..])
  }

  /** Exclamation marks, each followed by blanks. */
  function SkipNegations(s: string, neg: bool): (r: (bool, string))
    ensures |r.1| <= |s|
    decreases |s|
  {
    if s != "" && s[0] == '!' then SkipNegations(SkipBlanks(s[1..]), !neg) else (neg, s)
  }

  // Parsing.

  /** What was parsed and what follows; or nothing, because the text ended too
      early or because it is wrong. */
  datatype Parsed<T> = Done(value: T, rest: string) | Desync | Wrong

  function ParseTerm(text: string, depth: int, size: nat): (r: Parsed<Term>)
    requires 0 < size
    decreases depth, 1
  {
    var s := SkipBlanks(text);
    if s == "" then Desync
    else if depth <= 0 then Wrong
    else var (neg, s) := SkipNegations(s, false); ParseOperand(neg, s, depth, size)
  }

  function ParseOperand(neg: bool, s: string, depth: int, size: nat): (r: Parsed<Term>)
    requires 0 < size && 0 < depth
    decreases depth, 0
  {
    match ReadNumber(s)
    case Some((nonzero, rest)) => Done(Number(neg, nonzero), rest)
    case None =>
      if s != "" && s[0] == '(' then
        match ParseExpr(SkipBlanks(s[1..]), depth - 1, size)
        case Desync => Wrong
        case Wrong => Wrong
        case Done(e, rest) =>
          var rest := SkipBlanks(rest);
          if rest == "" || rest[0] != ')' then Wrong else Done(Paren(neg, e), SkipBlanks(rest[1..]))
      else if Word(s) in PREDICATES then
        match ArgList.MakeArgList(s[|Word(s)|..], PREDICATES[Word(s)], PREDICATES[Word(s)], size)
        case Error => Wrong
        case Args(args, rest) => Done(Call(neg, Word(s), args), rest)
      else Wrong
  }

  function ParseConj(text: string, depth: int, size: nat): (r: Parsed<Conj>)
    requires 0 < size
    decreases depth, 0
  {
    if text == "" then Desync
    else if depth <= 0 then Wrong
    else match ParseTerm(text, depth - 1, size)
      case Desync => Wrong
      case Wrong => Wrong
      case Done(t, rest) =>
        var rest := SkipBlanks(rest);
        if !("&&" <= rest) then Done(Conj(t, None), rest)
        else match ParseConj(SkipBlanks(rest[2..]), depth - 1, size)
          case Desync => Desync
          case Wrong => Wrong
          case Done(c, rest) => Done(Conj(t, Some(c)), rest)
  }

  function ParseExpr(text: string, depth: int, size: nat): (r: Parsed<Expr>)
    requires 0 < size
    decreases depth, 0
  {
    if text == "" then Desync
    else if depth <= 0 then Wrong
    else match ParseConj(text, depth - 1, size)
      case Desync => Wrong
      case Wrong => Wrong
      case Done(c, rest) =>
        var rest := SkipBlanks(rest);
        if !("||" <= rest) then Done(Expr(c, None), rest)
        else match ParseExpr(SkipBlanks(rest[2..]), depth - 1, size)
          case Desync => Desync
          case Wrong => Wrong
          case Done(e, rest) => Done(Expr(c, Some(e)), rest)
  }

  // Printing.

  function PrintTerm(t: Term): (s: string) {
    (if t.neg then "!" else "") +
    match t
    case Number(_, value) => if value then "1" else "0"
    case Paren(_, e) => "(" + PrintExpr(e) + ")"
    case Call(_, word, args) => word + "(" + ArgList.Joined(args) + ")"
  }

  function PrintConj(c: Conj): (s: string) {
    PrintTerm(c.left) + match c.right case None => "" case Some(r) => " && " + PrintConj(r)
  }

  function PrintExpr(e: Expr): (s: string) {
    PrintConj(e.left) + match e.right case None => "" case Some(r) => " || " + PrintExpr(r)
  }

  // The recursion depth a tree needs.

  function Max(a: nat, b: nat): (m: nat) {
    if a < b then b else a
  }

  function NeedTerm(t: Term): (n: nat) {
    1 + if t.Paren? then NeedExpr(t.expr) else 0
  }

  function NeedConj(c: Conj): (n: nat) {
    1 + Max(NeedTerm(c.left), if c.right.Some? then NeedConj(c.right.value) else 0)
  }

  function NeedExpr(e: Expr): (n: nat) {
    1 + Max(NeedConj(e.left), if e.right.Some? then NeedExpr(e.right.value) else 0)
  }

  // Trees that can be written.

  ghost predicate TermFine(t: Term, size: nat) {
    match t
    case Number(_, _) => true
    case Paren(_, e) => ExprFine(e, size)
    case Call(_, word, args) => word in PREDICATES && |args| == PREDICATES[word] && ArgList.Fit(args, size)
  }

  ghost predicate ConjFine(c: Conj, size: nat) {
    TermFine(c.left, size) && (c.right.Some? ==> ConjFine(c.right.value, size))
  }

  ghost predicate ExprFine(e: Expr, size: nat) {
    ConjFine(e.left, size) && (e.right.Some? ==> ExprFine(e.right.value, size))
  }

  // Reading back what was printed.

  /** Where a printed term may end. */
  ghost predicate Delimited(rest: string) {
    rest == "" || rest[0] == ' ' || rest[0] == ')'
  }

  ghost predicate PlainWord(w: string) {
    forall i | 0 <= i < |w| :: 'a' <= w[i] <= 'z' || w[i] == '_'
  }

  lemma PredicatesArePlain(word: string)
    requires word in PREDICATES
    ensures PlainWord(word) && word != "" && 'a' <= word[0] <= 'z'
  {
    PredicateStart(word);
    hide PlainWord;
    PredicateLetters(word);
  }

  lemma PredicateStart(word: string)
    requires word in PREDICATES
    ensures word != "" && 'a' <= word[0] <= 'z'
  {
  }

  lemma PredicateLetters(word: string)
    requires word in PREDICATES
    ensures PlainWord(word)
  {
  }

  lemma {:induction false} WordBack(w: string, tail: string)
    requires PlainWord(w) && tail != "" && tail[0] == '('
    ensures Word(w + tail) == w
  {
    if w == "" {
      assert w + tail == tail;
    } else {
      WordBack(w[1..], tail);
      assert (w + tail)[1..] == w[1..] + tail;
    }
  }

  lemma NumberBack(value: bool, rest: string)
    requires Delimited(rest)
    ensures ReadNumber((if value then "1" else "0") + rest) == Some((value, rest))
  {
    var s := (if value then "1" else "0") + rest;
    assert s[1..] == rest;
    assert Digits(rest, 8) == (0, false) && Digits(rest, 10) == (0, false);
  }

  function Body(t: Term): (s: string) {
    match t
    case Number(_, value) => if value then "1" else "0"
    case Paren(_, e) => "(" + PrintExpr(e) + ")"
    case Call(_, word, args) => word + "(" + ArgList.Joined(args) + ")"
  }

  lemma BodyStart(t: Term, size: nat)
    requires TermFine(t, size)
    ensures Body(t) != "" && Body(t)[0] != ' ' && Body(t)[0] != '\t' && Body(t)[0] != '!'
  {
    if t.Call? {
      PredicatesArePlain(t.word);
    }
  }

  lemma Negations(s: string)
    requires s != "" && s[0] != ' ' && s[0] != '\t' && s[0] != '!'
    ensures SkipBlanks(s) == s && SkipNegations(s, false) == (false, s)
    ensures SkipBlanks("!" + s) == "!" + s && SkipNegations("!" + s, false) == (true, s)
  {
    assert SkipNegations(s, true) == (true, s) && ("!" + s)[1..] == s;
  }

  lemma NegationBack(t: Term, rest: string, size: nat)
    requires TermFine(t, size)
    ensures PrintTerm(t) + rest != "" && SkipBlanks(PrintTerm(t) + rest) == PrintTerm(t) + rest
    ensures SkipNegations(PrintTerm(t) + rest, false) == (t.neg, Body(t) + rest)
  {
    BodyStart(t, size);
    PrintedTerm(t);
    hide Body, TermFine, SkipNegations, SkipBlanks, PrintTerm;
    var b := Body(t);
    Prefixed(b, rest);
    Negations(b + rest);
  }

  lemma PrintedTerm(t: Term)
    ensures PrintTerm(t) == if t.neg then "!" + Body(t) else Body(t)
  {
    hide PrintExpr, ArgList.Joined;
    assert "" + Body(t) == Body(t);
  }

  lemma Prefixed(b: string, rest: string)
    requires b != ""
    ensures (b + rest)[0] == b[0] && ("!" + b) + rest == "!" + (b + rest)
  {
  }

  lemma LetterIsNoNumber(s: string)
    requires s != "" && 'a' <= s[0] <= 'z'
    ensures ReadNumber(s).None?
  {
    assert Digits(s, 10) == (0, false);
  }

  lemma CallBack(neg: bool, word: string, args: seq<string>, rest: string, size: nat)
    requires TermFine(Call(neg, word, args), size) && 0 < size
    ensures var s := word + "(" + ArgList.Joined(args) + ")" + rest;
            && ReadNumber(s).None? && s[0] != '(' && Word(s) == word && |word| <= |s|
            && ArgList.MakeArgList(s[|word|..], PREDICATES[word], PREDICATES[word], size) == ArgList.Args(args, rest)
  {
    hide ReadNumber, Word, ArgList.MakeArgList, ArgList.Joined;
    PredicatesArePlain(word);
    var tail := "(" + ArgList.Joined(args) + ")" + rest;
    var s := word + "(" + ArgList.Joined(args) + ")" + rest;
    assert s == word + tail && s[|word|..] == tail && s[0] == word[0];
    WordBack(word, tail);
    ArgList.ArgsRoundTrip(args, rest, |args|, |args|, size);
    LetterIsNoNumber(s);
  }

  /** A printed term is read back, blanks after it aside. */
  lemma {:induction false} TermBack(t: Term, rest: string, depth: int, size: nat) returns (after: string)
    requires TermFine(t, size) && NeedTerm(t) <= depth && Delimited(rest) && 0 < size
    ensures ParseTerm(PrintTerm(t) + rest, depth, size) == Done(t, after) && SkipBlanks(after) == SkipBlanks(rest)
    decreases t, 0
  {
    hide ParseOperand, SkipNegations, PrintTerm, Body, SkipBlanks;
    NegationBack(t, rest, size);
    match t
    case Number(neg, value) =>
      NumberOperand(neg, value, rest, depth, size);
      after := rest;
    case Call(neg, word, args) =>
      CallOperand(neg, word, args, rest, depth, size);
      after := rest;
    case Paren(neg, e) =>
      ExprBack(e, ")" + rest, depth - 1, size) by {
        ParenText(e, rest, size);
      }
      ParenOperand(neg, e, rest, depth, size);
      SkipTwice(rest);
      after := SkipBlanks(rest);
  }

  lemma NumberOperand(neg: bool, value: bool, rest: string, depth: int, size: nat)
    requires Delimited(rest) && 0 < size && 0 < depth
    ensures ParseOperand(neg, Body(Number(neg, value)) + rest, depth, size) == Done(Number(neg, value), rest)
  {
    hide ReadNumber;
    NumberBack(value, rest);
  }

  lemma CallOperand(neg: bool, word: string, args: seq<string>, rest: string, depth: int, size: nat)
    requires TermFine(Call(neg, word, args), size) && 0 < size && 0 < depth
    ensures ParseOperand(neg, Body(Call(neg, word, args)) + rest, depth, size) == Done(Call(neg, word, args), rest)
  {
    hide ReadNumber, Word, ArgList.MakeArgList, ArgList.Joined;
    CallBack(neg, word, args, rest, size);
  }

  lemma ParenOperand(neg: bool, e: Expr, rest: string, depth: int, size: nat)
    requires ExprFine(e, size) && 0 < size && 0 < depth
    requires ParseExpr(PrintExpr(e) + (")" + rest), depth - 1, size) == Done(e, SkipBlanks(")" + rest))
    ensures ParseOperand(neg, Body(Paren(neg, e)) + rest, depth, size) == Done(Paren(neg, e), SkipBlanks(rest))
  {
    hide ReadNumber, SkipBlanks, ParseExpr, PrintExpr, ExprFine;
    var text := PrintExpr(e) + ")" + rest;
    ParenText(e, rest, size);
    ParenParts(PrintExpr(e), rest);
    assert Body(Paren(neg, e)) + rest == "(" + text by {
      assert Body(Paren(neg, e)) == "(" + PrintExpr(e) + ")";
    }
  }

  lemma ParenParts(t: string, rest: string)
    ensures t + ")" + rest == t + (")" + rest) && "(" + t + ")" + rest == "(" + (t + ")" + rest)
    ensures ("(" + (t + ")" + rest))[1..] == t + ")" + rest && (")" + rest)[1..] == rest
  {
  }

  lemma ParenText(e: Expr, rest: string, size: nat)
    requires ExprFine(e, size)
    ensures SkipBlanks(PrintExpr(e) + ")" + rest) == PrintExpr(e) + ")" + rest
    ensures SkipBlanks(")" + rest) == ")" + rest
    ensures ReadNumber("(" + (PrintExpr(e) + ")" + rest)) == None
  {
    ExprStart(e, size);
    assert (PrintExpr(e) + ")" + rest)[0] == PrintExpr(e)[0];
    assert Digits("(" + (PrintExpr(e) + ")" + rest), 10) == (0, false);
  }

  lemma SkipTwice(s: string)
    ensures SkipBlanks(SkipBlanks(s)) == SkipBlanks(s)
  {
  }

  lemma ConjStart(c: Conj, size: nat)
    requires ConjFine(c, size)
    ensures PrintConj(c) != "" && PrintConj(c)[0] != ' ' && PrintConj(c)[0] != '\t'
  {
    BodyStart(c.left, size);
    NegationBack(c.left, "", size);
    assert PrintTerm(c.left) + "" == PrintTerm(c.left);
  }

  lemma ExprStart(e: Expr, size: nat)
    requires ExprFine(e, size)
    ensures PrintExpr(e) != "" && PrintExpr(e)[0] != ' ' && PrintExpr(e)[0] != '\t'
  {
    ConjStart(e.left, size);
  }

  lemma {:induction false} ConjBack(c: Conj, rest: string, depth: int, size: nat)
    requires ConjFine(c, size) && NeedConj(c) <= depth && Delimited(rest) && 0 < size
    requires !("&&" <= SkipBlanks(rest))
    ensures ParseConj(PrintConj(c) + rest, depth, size) == Done(c, SkipBlanks(rest))
    decreases c, 1
  {
    hide ParseTerm, PrintTerm, SkipBlanks;
    ConjStart(c, size);
    if c.right.None? {
      var after := TermBack(c.left, rest, depth - 1, size);
      assert PrintConj(c) + rest == PrintTerm(c.left) + rest;
    } else {
      var r := c.right.value;
      var tail := " && " + PrintConj(r) + rest;
      var after := TermBack(c.left, tail, depth - 1, size);
      assert PrintConj(c) + rest == PrintTerm(c.left) + tail;
      ConjStart(r, size);
      OperatorSkipped("&&", PrintConj(r), rest);
      assert tail == " " + "&&" + " " + PrintConj(r) + rest;
      ConjBack(r, rest, depth - 1, size);
    }
  }

  lemma OperatorSkipped(op: string, next: string, rest: string)
    requires |op| == 2 && op[0] != ' ' && op[0] != '\t' && next != "" && next[0] != ' ' && next[0] != '\t'
    ensures var s := SkipBlanks(" " + op + " " + next + rest);
            op <= s && SkipBlanks(s[2..]) == next + rest
    ensures SkipBlanks(" " + op + " " + next + rest)[0] == op[0]
  {
    var s := op + " " + next + rest;
    assert (" " + op + " " + next + rest)[1..] == s;
    assert s[2..] == " " + next + rest && s[2..][1..] == next + rest;
  }

  lemma {:induction false} ExprBack(e: Expr, rest: string, depth: int, size: nat)
    requires ExprFine(e, size) && NeedExpr(e) <= depth && Delimited(rest) && 0 < size
    requires !("&&" <= SkipBlanks(rest)) && !("||" <= SkipBlanks(rest))
    ensures ParseExpr(PrintExpr(e) + rest, depth, size) == Done(e, SkipBlanks(rest))
    decreases e, 1
  {
    hide ParseConj, PrintConj, SkipBlanks;
    ExprStart(e, size);
    SkipTwice(rest);
    if e.right.None? {
      ConjBack(e.left, rest, depth - 1, size);
      assert PrintExpr(e) + rest == PrintConj(e.left) + rest;
    } else {
      var r := e.right.value;
      var tail := " || " + PrintExpr(r) + rest;
      ExprStart(r, size);
      OperatorSkipped("||", PrintExpr(r), rest);
      assert tail == " " + "||" + " " + PrintExpr(r) + rest;
      ConjBack(e.left, tail, depth - 1, size);
      SkipTwice(tail);
      assert PrintExpr(e) + rest == PrintConj(e.left) + tail;
      ExprBack(r, rest, depth - 1, size);
    }
  }

  // A tree that needs more depth than there is.

  lemma {:induction false} TermTooDeep(t: Term, rest: string, depth: int, size: nat)
    requires TermFine(t, size) && NeedTerm(t) > depth && Delimited(rest) && 0 < size
    ensures ParseTerm(PrintTerm(t) + rest, depth, size) == Wrong
    decreases t, 0
  {
    hide ParseOperand, SkipNegations, PrintTerm, Body, SkipBlanks;
    NegationBack(t, rest, size);
    if depth > 0 {
      ExprTooDeep(t.expr, ")" + rest, depth - 1, size) by {
        ParenText(t.expr, rest, size);
      }
      ParenTooDeep(t.neg, t.expr, rest, depth, size);
    }
  }

  lemma ParenTooDeep(neg: bool, e: Expr, rest: string, depth: int, size: nat)
    requires ExprFine(e, size) && 0 < size && 0 < depth
    requires ParseExpr(PrintExpr(e) + (")" + rest), depth - 1, size) == Wrong
    ensures ParseOperand(neg, Body(Paren(neg, e)) + rest, depth, size) == Wrong
  {
    hide ReadNumber, SkipBlanks, ParseExpr, PrintExpr, ExprFine;
    var text := PrintExpr(e) + ")" + rest;
    ParenText(e, rest, size);
    ParenParts(PrintExpr(e), rest);
    assert Body(Paren(neg, e)) + rest == "(" + text by {
      assert Body(Paren(neg, e)) == "(" + PrintExpr(e) + ")";
    }
  }

  lemma {:induction false} ConjTooDeep(c: Conj, rest: string, depth: int, size: nat)
    requires ConjFine(c, size) && NeedConj(c) > depth && Delimited(rest) && 0 < size
    ensures ParseConj(PrintConj(c) + rest, depth, size) == Wrong
    decreases c, 1
  {
    hide ParseTerm, PrintTerm, SkipBlanks;
    ConjStart(c, size);
    if depth > 0 {
      var tail := if c.right.Some? then " && " + PrintConj(c.right.value) + rest else rest;
      assert PrintConj(c) + rest == PrintTerm(c.left) + tail;
      if NeedTerm(c.left) > depth - 1 {
        TermTooDeep(c.left, tail, depth - 1, size);
      } else {
        var after := TermBack(c.left, tail, depth - 1, size);
        var r := c.right.value;
        ConjStart(r, size);
        OperatorSkipped("&&", PrintConj(r), rest);
        assert tail == " " + "&&" + " " + PrintConj(r) + rest;
        ConjTooDeep(r, rest, depth - 1, size);
      }
    }
  }

  lemma {:induction false} ExprTooDeep(e: Expr, rest: string, depth: int, size: nat)
    requires ExprFine(e, size) && NeedExpr(e) > depth && Delimited(rest) && 0 < size
    requires !("&&" <= SkipBlanks(rest))
    ensures ParseExpr(PrintExpr(e) + rest, depth, size) == Wrong
    decreases e, 1
  {
    hide ParseConj, PrintConj, SkipBlanks;
    ExprStart(e, size);
    if depth > 0 {
      var tail := if e.right.Some? then " || " + PrintExpr(e.right.value) + rest else rest;
      assert PrintExpr(e) + rest == PrintConj(e.left) + tail;
      if NeedConj(e.left) > depth - 1 {
        ConjTooDeep(e.left, tail, depth - 1, size);
      } else {
        var r := e.right.value;
        ExprStart(r, size);
        OperatorSkipped("||", PrintExpr(r), rest);
        assert tail == " " + "||" + " " + PrintExpr(r) + rest;
        ConjBack(e.left, tail, depth - 1, size);
        SkipTwice(tail);
        ExprTooDeep(r, rest, depth - 1, size);
      }
    }
  }

  /** A printed condition is read back exactly when the depth allows it, and is
      refused otherwise. */
  lemma ExprRoundTrip(e: Expr, depth: int, size: nat)
    requires ExprFine(e, size) && 0 < size
    ensures ParseExpr(PrintExpr(e), depth, size) == if NeedExpr(e) <= depth then Done(e, "") else Wrong
  {
    assert PrintExpr(e) + "" == PrintExpr(e);
    if NeedExpr(e) <= depth {
      ExprBack(e, "", depth, size);
    } else {
      ExprTooDeep(e, "", depth, size);
    }
  }

  // Evaluation. What a predicate says of its arguments is given by an oracle.

  datatype Value = False | True | Failed

  type Oracle = (string, seq<string>) -> Value

  function Negated(neg: bool, v: Value): (r: Value) {
    if !neg || v == Failed then v else if v == True then False else True
  }

  function EvalTerm(t: Term, o: Oracle): (v: Value) {
    Negated(t.neg,
      match t
      case Number(_, value) => if value then True else False
      case Paren(_, e) => EvalExpr(e, o)
      case Call(_, word, args) => o(word, args))
  }

  /** Terms are evaluated as long as they are true. */
  function EvalConj(c: Conj, o: Oracle): (v: Value) {
    var v := EvalTerm(c.left, o);
    if v == True && c.right.Some? then EvalConj(c.right.value, o) else v
  }

  /** Conjunctions are evaluated as long as they are false. */
  function EvalExpr(e: Expr, o: Oracle): (v: Value) {
    var v := EvalConj(e.left, o);
    if v == False && e.right.Some? then EvalExpr(e.right.value, o) else v
  }

  method RunTerm(t: Term, o: Oracle) returns (v: Value)
    ensures v == EvalTerm(t, o)
    decreases t, 0
  {
    match t {
      case Number(_, value) => v := if value then True else False;
      case Paren(_, e) => v := RunExpr(e, o);
      case Call(_, word, args) => v := o(word, args);
    }
    v := Negated(t.neg, v);
  }

  method RunConj(c0: Conj, o: Oracle) returns (v: Value)
    ensures v == EvalConj(c0, o)
    decreases c0, 0
  {
    var c := c0;
    v := RunTerm(c.left, o);
    while v == True && c.right.Some?
      invariant c == c0 || c < c0
      invariant EvalConj(c0, o) == EvalConj(c, o) && v == EvalTerm(c.left, o)
      decreases c
    {
      c := c.right.value;
      v := RunTerm(c.left, o);
    }
  }

  method RunExpr(e0: Expr, o: Oracle) returns (v: Value)
    ensures v == EvalExpr(e0, o)
    decreases e0, 0
  {
    var e := e0;
    v := RunConj(e.left, o);
    while v == False && e.right.Some?
      invariant e == e0 || e < e0
      invariant EvalExpr(e0, o) == EvalExpr(e, o) && v == EvalConj(e.left, o)
      decreases e
    {
      e := e.right.value;
      v := RunConj(e.left, o);
    }
  }

  // What conditions mean when no predicate fails.

  type Facts = (string, seq<string>) -> bool

  ghost predicate TermMeaning(t: Term, f: Facts) {
    t.neg != match t
             case Number(_, value) => value
             case Paren(_, e) => ExprMeaning(e, f)
             case Call(_, word, args) => f(word, args)
  }

  ghost predicate ConjMeaning(c: Conj, f: Facts) {
    TermMeaning(c.left, f) && (c.right.Some? ==> ConjMeaning(c.right.value, f))
  }

  ghost predicate ExprMeaning(e: Expr, f: Facts) {
    ConjMeaning(e.left, f) || (e.right.Some? && ExprMeaning(e.right.value, f))
  }

  /** The facts are what the oracle says wherever it does not fail. */
  ghost predicate Agree(o: Oracle, f: Facts) {
    forall w, a :: o(w, a) == Failed || o(w, a) == if f(w, a) then True else False
  }

  lemma {:induction false} TermSound(t: Term, o: Oracle, f: Facts)
    requires Agree(o, f)
    ensures EvalTerm(t, o) == Failed || (EvalTerm(t, o) == True <==> TermMeaning(t, f))
    decreases t, 0
  {
    match t
    case Number(_, _) =>
    case Paren(_, e) => ExprSound(e, o, f);
    case Call(_, word, args) =>
      assert o(word, args) == Failed || o(word, args) == if f(word, args) then True else False;
  }

  lemma {:induction false} ConjSound(c: Conj, o: Oracle, f: Facts)
    requires Agree(o, f)
    ensures EvalConj(c, o) == Failed || (EvalConj(c, o) == True <==> ConjMeaning(c, f))
    decreases c, 1
  {
    TermSound(c.left, o, f);
    if c.right.Some? {
      ConjSound(c.right.value, o, f);
    }
  }

  /** An answer is the truth of the condition, "&&" binding tighter than "||",
      whatever the predicates that failed or were not evaluated would say. */
  lemma {:induction false} ExprSound(e: Expr, o: Oracle, f: Facts)
    requires Agree(o, f)
    ensures EvalExpr(e, o) == Failed || (EvalExpr(e, o) == True <==> ExprMeaning(e, f))
    decreases e, 1
  {
    ConjSound(e.left, o, f);
    if e.right.Some? {
      ExprSound(e.right.value, o, f);
    }
  }

  /** A whole condition: an empty one is false, and nothing may follow. */
  function EvalCondition(text: string, o: Oracle, size: nat): (v: Value)
    requires 0 < size
  {
    if text == "" then False
    else match ParseExpr(text, MAX_DEPTH, size)
      case Desync => Failed
      case Wrong => Failed
      case Done(e, rest) => if SkipBlanks(rest) != "" then Failed else EvalExpr(e, o)
  }

  /** The text of a condition evaluates as the condition, unless it nests too
      deep, which is an error. */
  lemma PrintedConditionEvaluates(e: Expr, o: Oracle, size: nat)
    requires ExprFine(e, size) && 0 < size
    ensures EvalCondition(PrintExpr(e), o, size) == if NeedExpr(e) <= MAX_DEPTH then EvalExpr(e, o) else Failed
  {
    ExprStart(e, size);
    ExprRoundTrip(e, MAX_DEPTH, size);
  }
}
