/**
 * The part of the POSIX.1-2017 Shell Command Language that the in-session scripts use: quoting
 * (sections 2.2.1 to 2.2.3), token recognition (section 2.3), and the grammar of lists, AND-OR lists,
 * brace groups, simple commands and redirections (sections 2.9 and 2.10). Text outside that part, such
 * as a command that starts with another reserved word, is refused with `None`, never guessed at.
 */
module ShellSyntax {
  import opened Common

  /** A word keeps, for every character, whether it was quoted: only unquoted characters can be
      expanded, split or recognised as reserved. */
  datatype Piece = Ch(c: char, quoted: bool) | Param(name: string) | Sub(body: seq<Token>)
  datatype Token = Word(pieces: seq<Piece>) | Op(op: string)

  predicate IsBlank(c: char) { c == ' ' || c == '\t' }

  predicate IsOperatorChar(c: char) {
    c == ';' || c == '&' || c == '|' || c == '<' || c == '>' || c == '(' || c == ')' || c == '\n'
  }

  /** Characters that end an unquoted word. */
  predicate IsMeta(c: char) { IsBlank(c) || IsOperatorChar(c) }

  predicate IsNameChar(c: char) {
    'a' <= c <= 'z' || 'A' <= c <= 'Z' || '0' <= c <= '9' || c == '_'
  }

  // ----- Token recognition -----

  /** The text up to the closing single quote, and what follows it. */
  function SingleQuoted(s: string): (r: Option<(string, string)>)
    ensures r.Some? ==> |r.value.1| < |s|
  {
    if s == "" then None
    else if s[0] == '\'' then Some(("", s[1..]))
    else
      match SingleQuoted(s[1..])
      case None => None
      case Some((body, rest)) => Some(([s[0]] + body, rest))
  }

  function Quoted(body: string): (r: seq<Piece>)
    ensures |r| == |body| && forall i :: 0 <= i < |r| ==> r[i] == Ch(body[i], true)
  {
    seq(|body|, i requires 0 <= i < |body| => Ch(body[i], true))
  }

  function Unquoted(body: string): (r: seq<Piece>)
    ensures |r| == |body| && forall i :: 0 <= i < |r| ==> r[i] == Ch(body[i], false)
  {
    seq(|body|, i requires 0 <= i < |body| => Ch(body[i], false))
  }

  function NameLength(s: string): (n: nat)
    ensures n <= |s|
  {
    if s == "" || !IsNameChar(s[0]) then 0 else 1 + NameLength(s[1..])
  }

  /** `$?` or `$name` at the front of `s`, and what follows it. */
  function ParamAt(s: string): (r: Option<(Piece, string)>)
    requires s != "" && s[0] == '$'
    ensures r.Some? ==> |r.value.1| < |s|
  {
    if |s| >= 2 && s[1] == '?' then Some((Param("?"), s[2..]))
    else
      var n := NameLength(s[1..]);
      if n == 0 then None else Some((Param(s[1..1 + n]), s[1 + n..]))
  }

  /** The pieces of a double-quoted string up to its closing quote. */
  function DoubleQuoted(s: string): (r: Option<(seq<Piece>, string)>)
    ensures r.Some? ==> |r.value.1| < |s|
    decreases |s|, 1
  {
    if s == "" then None
    else if s[0] == '"' then Some(([], s[1..]))
    else if s[0] == '`' || s[0] == '\\' then None
    else if s[0] == '$' then
      if |s| < 2 || s[1] != '(' then None
      else
        match Tokens(s[2..], true)
        case None => None
        case Some((body, after)) =>
          match DoubleQuoted(after)
          case None => None
          case Some((pieces, rest)) => Some(([Sub(body)] + pieces, rest))
    else
      match DoubleQuoted(s[1..])
      case None => None
      case Some((pieces, rest)) => Some(([Ch(s[0], true)] + pieces, rest))
  }

  /** The longest word at the front of `s`, which may be empty, and what follows it. */
  function WordAt(s: string): (r: Option<(seq<Piece>, string)>)
    ensures r.Some? ==> |r.value.1| <= |s|
    ensures r.Some? && s != "" && !IsMeta(s[0]) ==> |r.value.1| < |s|
    decreases |s|, 2
  {
    if s == "" || IsMeta(s[0]) then Some(([], s))
    else if s[0] == '\'' then
      match SingleQuoted(s[1..])
      case None => None
      case Some((body, after)) => Append(Quoted(body), WordAt(after))
    else if s[0] == '"' then
      match DoubleQuoted(s[1..])
      case None => None
      case Some((pieces, after)) => Append(pieces, WordAt(after))
    else if s[0] == '`' || s[0] == '\\' then None
    else if s[0] == '$' then
      match ParamAt(s)
      case None => None
      case Some((param, after)) => Append([param], WordAt(after))
    else Append([Ch(s[0], false)], WordAt(s[1..]))
  }

  function Append(front: seq<Piece>, rest: Option<(seq<Piece>, string)>): (r: Option<(seq<Piece>, string)>)
    ensures r.Some? <==> rest.Some?
    ensures r.Some? ==> r.value == (front + rest.value.0, rest.value.1)
  {
    match rest
    case None => None
    case Some((pieces, after)) => Some((front + pieces, after))
  }

  function Prepend(front: seq<Token>, rest: Option<(seq<Token>, string)>): (r: Option<(seq<Token>, string)>)
    ensures r.Some? <==> rest.Some?
    ensures r.Some? ==> r.value == (front + rest.value.0, rest.value.1)
  {
    match rest
    case None => None
    case Some((tokens, after)) => Some((front + tokens, after))
  }

  predicate IsTwoCharOperator(a: char, b: char) {
    (a == b && (a == '&' || a == '|' || a == ';' || a == '<' || a == '>'))
    || ((a == '<' || a == '>') && b == '&') || (a == '<' && b == '>') || (a == '>' && b == '|')
  }

  /** Length of the operator at the front of `s`: the longest match wins. */
  function OperatorLength(s: string): (n: nat)
    requires s != ""
    ensures 1 <= n <= |s|
  {
    if |s| >= 2 && IsTwoCharOperator(s[0], s[1]) then 2 else 1
  }

  /** All tokens of `s`; when `nested`, those up to the parenthesis that closes a command
      substitution. A comment and a word that would be an IO number are outside the modelled part. */
  function Tokens(s: string, nested: bool): (r: Option<(seq<Token>, string)>)
    ensures r.Some? ==> |r.value.1| <= |s|
    ensures r.Some? && nested ==> |r.value.1| < |s|
    decreases |s|, 3
  {
    if s == "" then (if nested then None else Some(([], "")))
    else if nested && s[0] == ')' then Some(([], s[1..]))
    else if IsBlank(s[0]) then Tokens(s[1..], nested)
    else if s[0] == '(' || s[0] == ')' || s[0] == '#' then None
    else if IsOperatorChar(s[0]) then
      var n := OperatorLength(s);
      Prepend([Op(s[..n])], Tokens(s[n..], nested))
    else
      match WordAt(s)
      case None => None
      case Some((pieces, after)) =>
        if IsIoNumber(pieces, after) then None
        else Prepend([Word(pieces)], Tokens(after, nested))
  }

  predicate IsIoNumber(pieces: seq<Piece>, after: string) {
    after != "" && (after[0] == '<' || after[0] == '>') && pieces != []
    && forall i :: 0 <= i < |pieces| ==> pieces[i].Ch? && !pieces[i].quoted && '0' <= pieces[i].c <= '9'
  }

  // ----- Quoting a string as one word -----

  /** Characters `shlex.quote` leaves bare: ASCII letters, digits and `_@%+=:,./-`. */
  predicate IsSafe(c: char) {
    IsNameChar(c) || c == '@' || c == '%' || c == '+' || c == '=' || c == ':' || c == ',' || c == '.'
    || c == '/' || c == '-'
  }

  predicate AllSafe(s: string) {
    forall i :: 0 <= i < |s| ==> IsSafe(s[i])
  }

  /** The characters of `shlex.quote`'s own list, and no others. */
  lemma SafeCharacters(c: char)
    ensures IsSafe(c)
       <==> 'a' <= c <= 'z' || 'A' <= c <= 'Z' || '0' <= c <= '9'
            || c in {'_', '@', '%', '+', '=', ':', ',', '.', '/', '-'}
  {
  }

  /** `s.replace("'", "'\"'\"'")`. */
  function EscapeQuotes(s: string): string {
    if s == "" then ""
    else (if s[0] == '\'' then "'\"'\"'" else [s[0]]) + EscapeQuotes(s[1..])
  }

  /** `shlex.quote`. */
  function Quote(s: string): string {
    if s == "" then "''"
    else if AllSafe(s) then s
    else "'" + EscapeQuotes(s) + "'"
  }

  /** The word a quoted string is meant to become. */
  function PathWord(s: string): Token {
    Word(if s != "" && AllSafe(s) then Unquoted(s) else Quoted(s))
  }

  // ----- Trees -----

  datatype Redirect = Redirect(op: string, target: Token)

  datatype Cmd =
    | Simple(words: seq<Token>, redirects: seq<Redirect>)
    | And(left: Cmd, right: Cmd)
    | Or(left: Cmd, right: Cmd)
    | Seq(left: Cmd, right: Cmd)
    | Group(body: Cmd)

  const OPEN: Token := Word([Ch('{', false)])
  const CLOSE: Token := Word([Ch('}', false)])

  /** The text of a word that is written without any quoting or expansion. */
  function Bare(t: Token): (r: Option<string>)
    ensures r.Some? ==> t.Word? && |r.value| == |t.pieces|
    ensures r.Some? ==> forall i :: 0 <= i < |r.value| ==> t.pieces[i] == Ch(r.value[i], false)
  {
    if t.Word? && forall i :: 0 <= i < |t.pieces| ==> t.pieces[i].Ch? && !t.pieces[i].quoted
    then Some(seq(|t.pieces|, i requires 0 <= i < |t.pieces| => t.pieces[i].c))
    else None
  }

  /** Section 2.4: reserved when a bare word in the place of a command name. */
  predicate IsReservedWord(s: string) {
    s in ["!", "{", "}", "case", "do", "done", "elif", "else", "esac", "fi", "for", "if", "in", "then", "until", "while"]
  }

  predicate IsReserved(t: Token) {
    Bare(t).Some? && IsReservedWord(Bare(t).value)
  }

  lemma BareWord(w: string)
    ensures Bare(Word(Unquoted(w))) == Some(w)
  {
    assert Bare(Word(Unquoted(w))).value == w;
  }

  lemma BracesAreReserved()
    ensures IsReserved(OPEN) && IsReserved(CLOSE)
  {
    BareWord("{");
    BareWord("}");
    assert OPEN == Word(Unquoted("{")) && CLOSE == Word(Unquoted("}"));
    assert "{" == ["!", "{", "}"][1] && "}" == ["!", "{", "}"][2];
  }

  predicate IsRedirectOp(t: Token) { t == Op("<") || t == Op(">") }

  /** Words and redirections up to the next control operator. */
  function SimpleAt(ts: seq<Token>, words: seq<Token>, redirects: seq<Redirect>): (r: Option<(Cmd, seq<Token>)>)
    ensures r.Some? ==> |r.value.1| <= |ts|
    ensures r.Some? && |words| + |redirects| == 0 ==> |r.value.1| < |ts|
    decreases |ts|
  {
    if ts != [] && ts[0].Word? then SimpleAt(ts[1..], words + [ts[0]], redirects)
    else if ts != [] && IsRedirectOp(ts[0]) then
      if |ts| >= 2 && ts[1].Word? then
        SimpleAt(ts[2..], words, redirects + [Redirect(ts[0].op, ts[1])])
      else None
    else if |words| + |redirects| == 0 then None
    else Some((Simple(words, redirects), ts))
  }

  function CommandAt(ts: seq<Token>): (r: Option<(Cmd, seq<Token>)>)
    ensures r.Some? ==> |r.value.1| < |ts|
    decreases |ts|, 0
  {
    if ts != [] && ts[0] == OPEN then
      match ListAt(ts[1..])
      case None => None
      case Some((body, rest)) =>
        if rest != [] && rest[0] == CLOSE then Some((Group(body), rest[1..])) else None
    else if ts != [] && IsReserved(ts[0]) then None
    else SimpleAt(ts, [], [])
  }

  /** AND-OR lists associate to the left with equal precedence (section 2.9.3). */
  function AndOrFrom(acc: Cmd, ts: seq<Token>): (r: Option<(Cmd, seq<Token>)>)
    ensures r.Some? ==> |r.value.1| <= |ts|
    decreases |ts|, 1
  {
    if ts != [] && (ts[0] == Op("&&") || ts[0] == Op("||")) then
      match CommandAt(ts[1..])
      case None => None
      case Some((c, rest)) =>
        AndOrFrom(if ts[0] == Op("&&") then And(acc, c) else Or(acc, c), rest)
    else Some((acc, ts))
  }

  function AndOrAt(ts: seq<Token>): (r: Option<(Cmd, seq<Token>)>)
    ensures r.Some? ==> |r.value.1| < |ts|
    decreases |ts|, 1
  {
    match CommandAt(ts)
    case None => None
    case Some((c, rest)) => AndOrFrom(c, rest)
  }

  /** A list: AND-OR lists separated, and optionally ended, by semicolons. */
  function ListAt(ts: seq<Token>): (r: Option<(Cmd, seq<Token>)>)
    ensures r.Some? ==> |r.value.1| < |ts|
    decreases |ts|, 2
  {
    match AndOrAt(ts)
    case None => None
    case Some((c, rest)) =>
      if rest != [] && rest[0] == Op(";") then
        if |rest| == 1 || rest[1] == CLOSE then Some((c, rest[1..]))
        else
          match ListAt(rest[1..])
          case None => None
          case Some((more, after)) => Some((Seq(c, more), after))
      else Some((c, rest))
  }

  /** The tree a whole script denotes. */
  function Parse(text: string): Option<Cmd> {
    match Tokens(text, false)
    case None => None
    case Some((ts, _)) =>
      match ListAt(ts)
      case None => None
      case Some((c, rest)) => if rest == [] then Some(c) else None
  }

  // ----- Printing is undone by parsing -----

  predicate PrintableSimple(c: Cmd) {
    c.Simple? && c.words != []
    && (forall i :: 0 <= i < |c.words| ==> c.words[i].Word?)
    && !IsReserved(c.words[0])
    && (forall i :: 0 <= i < |c.redirects| ==> IsRedirectOp(Op(c.redirects[i].op)) && c.redirects[i].target.Word?)
  }

  predicate PrintableCommand(c: Cmd)
    decreases c, 0
  {
    PrintableSimple(c) || (c.Group? && PrintableList(c.body))
  }

  predicate PrintableAndOr(c: Cmd)
    decreases c, 1
  {
    if c.And? || c.Or? then PrintableAndOr(c.left) && PrintableCommand(c.right) else PrintableCommand(c)
  }

  predicate PrintableList(c: Cmd)
    decreases c, 2
  {
    if c.Seq? then PrintableAndOr(c.left) && PrintableList(c.right) else PrintableAndOr(c)
  }

  function PrintRedirects(rs: seq<Redirect>): seq<Token> {
    if rs == [] then [] else [Op(rs[0].op), rs[0].target] + PrintRedirects(rs[1..])
  }

  function Print(c: Cmd): seq<Token> {
    match c
    case Simple(words, redirects) => words + PrintRedirects(redirects)
    case And(l, r) => Print(l) + [Op("&&")] + Print(r)
    case Or(l, r) => Print(l) + [Op("||")] + Print(r)
    case Seq(l, r) => Print(l) + [Op(";")] + Print(r)
    case Group(b) => [OPEN] + Print(b) + [Op(";"), CLOSE]
  }

  /** What may follow a complete command: the end, or a control operator. */
  predicate EndsCommand(ts: seq<Token>) {
    ts == [] || (ts[0].Op? && !IsRedirectOp(ts[0]))
  }

  lemma RedirectStep(op: Token, target: Token, rest: seq<Token>, words: seq<Token>, done: seq<Redirect>)
    requires IsRedirectOp(op) && target.Word?
    ensures SimpleAt([op, target] + rest, words, done) == SimpleAt(rest, words, done + [Redirect(op.op, target)])
  {
    assert ([op, target] + rest)[2..] == rest;
  }

  lemma {:induction false} SimpleRedirects(rs: seq<Redirect>, words: seq<Token>, done: seq<Redirect>, rest: seq<Token>)
    requires |words| + |done| > 0 && EndsCommand(rest)
    requires forall i :: 0 <= i < |rs| ==> IsRedirectOp(Op(rs[i].op)) && rs[i].target.Word?
    ensures SimpleAt(PrintRedirects(rs) + rest, words, done) == Some((Simple(words, done + rs), rest))
    decreases |rs|
  {
    if rs == [] {
      assert PrintRedirects(rs) + rest == rest;
      assert done + rs == done;
    } else {
      Associate([Op(rs[0].op), rs[0].target], PrintRedirects(rs[1..]), rest);
      RedirectStep(Op(rs[0].op), rs[0].target, PrintRedirects(rs[1..]) + rest, words, done);
      SimpleRedirects(rs[1..], words, done + [rs[0]], rest);
      assert done + [rs[0]] + rs[1..] == done + rs;
    }
  }

  lemma {:induction false} SimpleWords(ws: seq<Token>, seen: seq<Token>, rs: seq<Redirect>, rest: seq<Token>)
    requires |seen| + |ws| > 0 && EndsCommand(rest)
    requires forall i :: 0 <= i < |ws| ==> ws[i].Word?
    requires forall i :: 0 <= i < |rs| ==> IsRedirectOp(Op(rs[i].op)) && rs[i].target.Word?
    ensures SimpleAt(ws + PrintRedirects(rs) + rest, seen, []) == Some((Simple(seen + ws, rs), rest))
    decreases |ws|
  {
    var ts := ws + PrintRedirects(rs) + rest;
    if ws == [] {
      assert ts == PrintRedirects(rs) + rest;
      SimpleRedirects(rs, seen, [], rest);
      assert [] + rs == rs && seen + ws == seen;
    } else {
      assert ts[1..] == ws[1..] + PrintRedirects(rs) + rest;
      SimpleWords(ws[1..], seen + [ws[0]], rs, rest);
      assert seen + [ws[0]] + ws[1..] == seen + ws;
    }
  }

  lemma {:induction false} ParseCommand(c: Cmd, rest: seq<Token>)
    requires PrintableCommand(c) && EndsCommand(rest)
    ensures CommandAt(Print(c) + rest) == Some((c, rest))
    decreases c, 0
  {
    var ts := Print(c) + rest;
    match c
    case Simple(words, redirects) =>
      assert ts[0] == words[0];
      BracesAreReserved();
      SimpleWords(words, [], redirects, rest);
      assert [] + words == words;
    case Group(body) =>
      var tail := [Op(";"), CLOSE] + rest;
      assert ts[1..] == Print(body) + tail;
      ParseList(body, tail);
      assert tail[1..][1..] == rest;
  }

  /** Parsing an AND-OR list's tokens resumes with the list itself as the left operand. */
  lemma {:induction false} ParseAndOr(c: Cmd, rest: seq<Token>)
    requires PrintableAndOr(c) && EndsCommand(rest)
    ensures AndOrAt(Print(c) + rest) == AndOrFrom(c, rest)
    decreases c, 1
  {
    if c.And? || c.Or? {
      var op := if c.And? then Op("&&") else Op("||");
      var tail := [op] + Print(c.right) + rest;
      assert Print(c) + rest == Print(c.left) + tail;
      ParseAndOr(c.left, tail);
      assert tail[1..] == Print(c.right) + rest;
      ParseCommand(c.right, rest);
    } else {
      ParseCommand(c, rest);
    }
  }

  lemma ListEnds(ts: seq<Token>, c: Cmd, rest: seq<Token>)
    requires AndOrAt(ts) == AndOrFrom(c, rest)
    requires rest == [] || (|rest| >= 2 && rest[0] == Op(";") && rest[1] == CLOSE)
    ensures ListAt(ts) == Some((c, if rest == [] then [] else rest[1..]))
  {
  }

  lemma ListContinues(ts: seq<Token>, c: Cmd, tail: seq<Token>, more: Cmd, after: seq<Token>)
    requires AndOrAt(ts) == AndOrFrom(c, tail)
    requires |tail| >= 2 && tail[0] == Op(";") && tail[1] != CLOSE
    requires ListAt(tail[1..]) == Some((more, after))
    ensures ListAt(ts) == Some((Seq(c, more), after))
  {
  }

  lemma {:induction false} ParseList(c: Cmd, rest: seq<Token>)
    requires PrintableList(c)
    requires rest == [] || (|rest| >= 2 && rest[0] == Op(";") && rest[1] == CLOSE)
    ensures ListAt(Print(c) + rest) == Some((c, if rest == [] then [] else rest[1..]))
    decreases c, 2
  {
    if c.Seq? {
      var tail := [Op(";")] + Print(c.right) + rest;
      assert Print(c) + rest == Print(c.left) + tail;
      ParseAndOr(c.left, tail);
      assert tail[1..] == Print(c.right) + rest;
      FirstToken(c.right);
      ParseList(c.right, rest);
      ListContinues(Print(c) + rest, c.left, tail, c.right, if rest == [] then [] else rest[1..]);
    } else {
      ParseAndOr(c, rest);
      ListEnds(Print(c) + rest, c, rest);
    }
  }

  lemma {:induction false} FirstToken(c: Cmd)
    requires PrintableList(c) || PrintableAndOr(c)
    ensures Print(c) != [] && Print(c)[0] != CLOSE
  {
    BracesAreReserved();
    match c
    case Simple(words, redirects) =>
      assert PrintableAndOr(c) && PrintableCommand(c);
      assert Print(c)[0] == words[0];
    case Group(_) => assert Print(c)[0] == OPEN;
    case And(l, _) => FirstToken(l);
    case Or(l, _) => FirstToken(l);
    case Seq(l, _) => FirstToken(l);
  }

  /** Every printable tree is recovered from its tokens. */
  lemma ParseInvertsPrint(c: Cmd)
    requires PrintableList(c)
    ensures ListAt(Print(c)) == Some((c, []))
  {
    ParseList(c, []);
    assert Print(c) + [] == Print(c);
  }

  // ----- Lexing what the scripts are made of -----

  predicate Boundary(rest: string) {
    rest == "" || IsMeta(rest[0])
  }

  /** A character that stands for itself wherever it occurs in an unquoted word. */
  predicate IsPlain(c: char) {
    !IsMeta(c) && c != '\'' && c != '"' && c != '`' && c != '\\' && c != '$'
  }

  lemma {:induction false} PlainWordAt(w: string, rest: string)
    requires forall i :: 0 <= i < |w| ==> IsPlain(w[i])
    requires Boundary(rest)
    ensures WordAt(w + rest) == Some((Unquoted(w), rest))
  {
    if w == "" {
      assert w + rest == rest;
    } else {
      assert (w + rest)[1..] == w[1..] + rest;
      PlainWordAt(w[1..], rest);
      assert Unquoted(w) == [Ch(w[0], false)] + Unquoted(w[1..]);
    }
  }

  lemma {:induction false} SingleQuotedBody(body: string, rest: string)
    requires '\'' !in body
    ensures SingleQuoted(body + "'" + rest) == Some((body, rest))
  {
    if body != "" {
      assert (body + "'" + rest)[1..] == body[1..] + "'" + rest;
      SingleQuotedBody(body[1..], rest);
      assert [body[0]] + body[1..] == body;
    } else {
      assert (body + "'" + rest)[1..] == rest;
    }
  }

  function FirstQuote(s: string): (i: nat)
    ensures i <= |s| && '\'' !in s[..i] && (i < |s| ==> s[i] == '\'')
  {
    if s == "" || s[0] == '\'' then 0
    else
      var i := 1 + FirstQuote(s[1..]);
      assert s[..i] == [s[0]] + s[1..][..i - 1];
      i
  }

  /** From inside a single-quoted string, the escaped text closes it with every character intact. */
  lemma {:induction false} EscapedWordAt(s: string, rest: string)
    requires Boundary(rest)
    ensures WordAt("'" + EscapeQuotes(s) + "'" + rest) == Some((Quoted(s), rest))
    decreases |s|
  {
    var i := FirstQuote(s);
    EscapeSplit(s, i);
    if i == |s| {
      QuotedBodyWordAt(s, rest);
      assert Quoted(s) + [] == Quoted(s);
    } else {
      var after := "'" + EscapeQuotes(s[i + 1..]) + "'" + rest;
      QuotedBodyWordAt(s[..i], "\"'\"" + after);
      Regroup(s[..i], EscapeQuotes(s[i + 1..]), rest);
      DoubleQuotedQuote(after);
      EscapedWordAt(s[i + 1..], rest);
      QuotedSplit(s, i);
    }
  }

  lemma Regroup(before: string, escaped: string, rest: string)
    ensures "'" + (before + "'\"'\"'" + escaped) + "'" + rest
         == "'" + before + "'" + ("\"'\"" + ("'" + escaped + "'" + rest))
  {
    assert "'\"'\"'" == "'" + ("\"'\"" + "'");
  }

  lemma QuotedSplit(s: string, i: nat)
    requires i < |s| && s[i] == '\''
    ensures Quoted(s[..i]) + ([Ch('\'', true)] + Quoted(s[i + 1..])) == Quoted(s)
  {
  }

  lemma QuotedBodyWordAt(body: string, after: string)
    requires '\'' !in body
    ensures WordAt("'" + body + "'" + after) == Append(Quoted(body), WordAt(after))
  {
    var text := "'" + body + "'" + after;
    assert text[1..] == body + "'" + after;
    SingleQuotedBody(body, after);
  }

  lemma DoubleQuotedQuote(after: string)
    ensures WordAt("\"'\"" + after) == Append([Ch('\'', true)], WordAt(after))
  {
    var t := "\"'\"" + after;
    assert t[1..] == "'\"" + after;
    assert ("'\"" + after)[1..] == "\"" + after;
    assert ("\"" + after)[1..] == after;
    assert DoubleQuoted("\"" + after) == Some(([], after));
    assert [Ch('\'', true)] + [] == [Ch('\'', true)];
    assert DoubleQuoted("'\"" + after) == Some(([Ch('\'', true)], after));
  }

  lemma {:induction false} EscapePrefix(s: string, i: nat)
    requires i <= |s| && '\'' !in s[..i]
    ensures EscapeQuotes(s) == s[..i] + EscapeQuotes(s[i..])
  {
    if i == 0 {
      assert s[0..] == s && s[..0] == "";
    } else {
      assert s[..i] == [s[0]] + s[1..][..i - 1];
      assert s[..i][0] == s[0];
      EscapePrefix(s[1..], i - 1);
      assert s[1..][i - 1..] == s[i..];
    }
  }

  lemma EscapeSplit(s: string, i: nat)
    requires i <= |s| && '\'' !in s[..i]
    ensures i < |s| && s[i] == '\'' ==> EscapeQuotes(s) == s[..i] + "'\"'\"'" + EscapeQuotes(s[i + 1..])
    ensures i == |s| ==> EscapeQuotes(s) == s
  {
    EscapePrefix(s, i);
    if i < |s| {
      assert s[i..][1..] == s[i + 1..];
    }
  }

  /** The quoting law: whatever the string, its quoted form is read back as one word whose characters
      are the string's, with anything the shell could act on marked as quoted. */
  lemma QuoteWordAt(s: string, rest: string)
    requires Boundary(rest)
    ensures WordAt(Quote(s) + rest) == Some((PathWord(s).pieces, rest))
    ensures Quote(s) != "" && !IsMeta(Quote(s)[0]) && Quote(s)[0] != '#'
  {
    if s != "" && AllSafe(s) {
      PlainWordAt(s, rest);
    } else {
      assert EscapeQuotes("") == "";
      EscapedWordAt(s, rest);
      assert "'" + EscapeQuotes("") + "'" == "''";
    }
  }

  // ----- One lexing step at a time -----

  lemma LexBlank(rest: string, nested: bool)
    ensures Tokens(" " + rest, nested) == Tokens(rest, nested)
  {
    assert (" " + rest)[1..] == rest;
  }

  lemma LexOperator(op: string, rest: string, nested: bool)
    requires op == "&&" || op == "||" || ((op == ";" || op == ">" || op == "<") && rest != "" && rest[0] == ' ')
    ensures Tokens(op + rest, nested) == Prepend([Op(op)], Tokens(rest, nested))
  {
    var s := op + rest;
    assert s[0] == op[0] && (|op| == 2 ==> s[1] == op[1]) && (|op| == 1 ==> s[1] == ' ');
    assert OperatorLength(s) == |op|;
    assert s[..|op|] == op && s[|op|..] == rest;
  }

  /** An unquoted word followed by a blank, a semicolon or the end. */
  lemma LexPlain(w: string, rest: string, nested: bool)
    requires w != "" && w[0] != '#' && forall i :: 0 <= i < |w| ==> IsPlain(w[i])
    requires rest == "" || rest[0] == ' ' || rest[0] == ';'
    ensures Tokens(w + rest, nested) == Prepend([Word(Unquoted(w))], Tokens(rest, nested))
  {
    PlainWordAt(w, rest);
    assert (w + rest)[0] == w[0];
  }

  lemma LexPath(p: string, rest: string, nested: bool)
    requires rest == "" || rest[0] == ' ' || rest[0] == ';' || rest[0] == ')'
    ensures Tokens(Quote(p) + rest, nested) == Prepend([PathWord(p)], Tokens(rest, nested))
  {
    QuoteWordAt(p, rest);
    assert (Quote(p) + rest)[0] == Quote(p)[0];
  }
}
