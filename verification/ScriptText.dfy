/**
 * The script texts the service sends to `sh -c`, and the proof that the shell reads each of them as
 * the program it is meant to be, for every path.
 */
module ScriptText {
  import opened Common
  import opened ShellSyntax
  import M = ShellMachine

  // ----- Decimal numbers -----

  function Digit(d: nat): char
    requires d < 10
  {
    ('0' as int + d) as char
  }

  /** An f-string's rendering of a length. */
  function Dec(n: nat): string {
    if n < 10 then [Digit(n)] else Dec(n / 10) + [Digit(n % 10)]
  }

  predicate AllDigits(s: string) {
    forall i :: 0 <= i < |s| ==> '0' <= s[i] <= '9'
  }

  function ValueOf(s: string): nat
    requires AllDigits(s)
  {
    if s == "" then 0 else ValueOf(s[..|s| - 1]) * 10 + (s[|s| - 1] as int - '0' as int)
  }

  function ParseNat(s: string): Option<nat> {
    if s != "" && AllDigits(s) then Some(ValueOf(s)) else None
  }

  lemma {:induction false} ParseDec(n: nat)
    ensures ParseNat(Dec(n)) == Some(n)
  {
    if n >= 10 {
      ParseDec(n / 10);
      assert Dec(n)[..|Dec(n)| - 1] == Dec(n / 10);
    } else {
      assert ValueOf([Digit(n)][..0]) == 0;
    }
  }

  // ----- From trees to programs -----

  /** The one field a word expands to when nothing in it can be expanded. */
  function Literal(t: Token): Option<string> {
    if t.Word? && (forall i :: 0 <= i < |t.pieces| ==> IsInert(t.pieces[i], i == 0))
    then Some(seq(|t.pieces|, i requires 0 <= i < |t.pieces| => t.pieces[i].c))
    else None
  }

  /** Quoted, or neither a pathname-expansion character nor a leading tilde. */
  predicate IsInert(p: Piece, first: bool) {
    p.Ch? && (p.quoted || (p.c != '*' && p.c != '?' && p.c != '[' && (p.c != '~' || !first)))
  }

  function Literals(ts: seq<Token>): Option<seq<string>> {
    if forall i :: 0 <= i < |ts| ==> Literal(ts[i]).Some?
    then Some(seq(|ts|, i requires 0 <= i < |ts| => Literal(ts[i]).value))
    else None
  }

  function Plain(s: string): Token { Word(Unquoted(s)) }

  const ASSIGN_STATUS: Token := Word([Ch('r', false), Ch('c', false), Ch('=', false), Param("?")])
  const SAVED_STATUS: Token := Word([Param("rc")])

  /** `"$(wc -c < f)"`, the size of `f` as one field. */
  function FileSizeOf(t: Token): Option<string> {
    if t.Word? && |t.pieces| == 1 && t.pieces[0].Sub? then
      match ListAt(t.pieces[0].body)
      case Some((Simple(words, redirects), rest)) =>
        if rest == [] && Literals(words) == Some(["wc", "-c"]) && |redirects| == 1 && redirects[0].op == "<"
        then Literal(redirects[0].target)
        else None
      case _ => None
    else None
  }

  function ElaborateSimple(words: seq<Token>, redirects: seq<Redirect>): Option<M.Prog> {
    if words == [ASSIGN_STATUS] && redirects == [] then Some(M.SaveStatus)
    else if words == [Plain("exit"), SAVED_STATUS] && redirects == [] then Some(M.ExitSaved)
    else if |words| == 5 && words[0] == Plain("[") && words[2] == Plain("-eq") && words[4] == Plain("]") && redirects == [] then
      match (FileSizeOf(words[1]), Literal(words[3]))
      case (Some(file), Some(digits)) =>
        (match ParseNat(digits)
         case Some(size) => Some(M.SizeIs(file, size))
         case None => None)
      case _ => None
    else
      match Literals(words)
      case None => None
      case Some(argv) =>
        if redirects == [] then ElaborateArgv(argv)
        else if |redirects| == 1 && redirects[0].op == ">" then
          match Literal(redirects[0].target)
          case None => None
          case Some(dst) => ElaborateInto(argv, dst)
        else None
  }

  function ElaborateArgv(argv: seq<string>): Option<M.Prog> {
    if |argv| == 3 && argv[0] == "mkdir" && argv[1] == "-p" then Some(M.MkdirP(argv[2]))
    else if |argv| == 3 && argv[0] == "rm" && argv[1] == "-f" then Some(M.RmF(argv[2]))
    else if |argv| == 4 && argv[0] == "mv" && argv[1] == "-f" then Some(M.Mv(argv[2], argv[3]))
    else if |argv| == 2 && argv[0] == "cd" then Some(M.Cd(argv[1]))
    else if |argv| == 1 && argv[0] == "false" then Some(M.False)
    else if |argv| == 4 && argv[0] == "head" && argv[1] == "-c" then
      match ParseNat(argv[2])
      case Some(count) => Some(M.Head(count, argv[3]))
      case None => None
    else if |argv| == 6 && argv[0] == "timeout" && argv[1] == "-k" && argv[2] == "1" then
      match ParseNat(argv[3])
      case Some(seconds) => Some(M.Interpret(seconds, argv[4], argv[5]))
      case None => None
    else None
  }

  function ElaborateInto(argv: seq<string>, dst: string): Option<M.Prog> {
    if |argv| == 1 && argv[0] == "cat" then Some(M.CatTo(dst))
    else if |argv| == 3 && argv[0] == "base64" && argv[1] == "-d" then Some(M.Base64To(argv[2], dst))
    else None
  }

  function Elaborate(c: Cmd): Option<M.Prog> {
    match c
    case Simple(words, redirects) => ElaborateSimple(words, redirects)
    case Group(b) =>
      (match Elaborate(b)
       case Some(p) => Some(M.Group(p))
       case None => None)
    case _ =>
      match (Elaborate(c.left), Elaborate(c.right))
      case (Some(l), Some(r)) =>
        Some(if c.And? then M.And(l, r) else if c.Or? then M.Or(l, r) else M.Seq(l, r))
      case _ => None
  }

  /** The program a script text denotes. */
  function Meaning(text: string): Option<M.Prog> {
    match Parse(text)
    case None => None
    case Some(c) => Elaborate(c)
  }

  // ----- The texts -----

  const WORKDIR := "/workspace"

  function MkdirText(dir: string): string {
    "mkdir -p " + Quote(dir) + " && "
  }

  function CatText(dst: string): string {
    "cat > " + Quote(dst) + " && "
  }

  function SizeTestText(file: string, size: nat): string {
    "[ \"$(wc -c < " + Quote(file) + ")\" -eq " + Dec(size) + " ] && "
  }

  function FinishText(tmp: string, dest: string, base64: bool): string {
    if base64 then
      "base64 -d " + Quote(tmp) + " > " + Quote(dest) + " || { rm -f " + Quote(dest) + "; false; }"
    else "mv -f " + Quote(tmp) + " " + Quote(dest)
  }

  function CleanupText(tmp: string): string {
    "; rc=$?; rm -f " + Quote(tmp) + "; exit $rc"
  }

  function WriteText(parent: string, tmp: string, dest: string, size: nat, base64: bool): string {
    MkdirText(parent) + CatText(tmp) + SizeTestText(tmp, size) + FinishText(tmp, dest, base64) + CleanupText(tmp)
  }

  function StartText(dir: string, script: string, seconds: nat, interpreter: string): string {
    "cd " + Quote(dir) + " && timeout -k 1 " + Dec(seconds) + " " + Quote(interpreter) + " " + Quote(script)
  }

  function RunText(script: string, size: nat, seconds: nat, interpreter: string): string {
    CatText(script) + SizeTestText(script, size) + StartText(WORKDIR, script, seconds, interpreter) + CleanupText(script)
  }

  function ReadText(count: nat, path: string): string {
    "head -c " + Dec(count) + " " + Quote(path)
  }

  // ----- The trees -----

  function Command(words: seq<Token>): Cmd { Simple(words, []) }

  function MkdirCmd(dir: string): Cmd { Command([Plain("mkdir"), Plain("-p"), PathWord(dir)]) }

  function RemoveCmd(file: string): Cmd { Command([Plain("rm"), Plain("-f"), PathWord(file)]) }

  function CdCmd(dir: string): Cmd { Command([Plain("cd"), PathWord(dir)]) }

  function SizeWord(file: string): Token {
    Word([Sub([Plain("wc"), Plain("-c"), Op("<"), PathWord(file)])])
  }

  function SizeTestCmd(file: string, size: nat): Cmd {
    Command([Plain("["), SizeWord(file), Plain("-eq"), Plain(Dec(size)), Plain("]")])
  }

  function CatCmd(dst: string): Cmd {
    Simple([Plain("cat")], [Redirect(">", PathWord(dst))])
  }

  function MoveCmd(tmp: string, dest: string): Cmd {
    Command([Plain("mv"), Plain("-f"), PathWord(tmp), PathWord(dest)])
  }

  function CleanupCmd(tmp: string): Cmd {
    Seq(Command([ASSIGN_STATUS]), Seq(RemoveCmd(tmp), Command([Plain("exit"), SAVED_STATUS])))
  }

  function UploadCmd(parent: string, tmp: string, size: nat): Cmd {
    And(And(MkdirCmd(parent), CatCmd(tmp)), SizeTestCmd(tmp, size))
  }

  function WriteCmd(parent: string, tmp: string, dest: string, size: nat, base64: bool): Cmd {
    var upload := UploadCmd(parent, tmp, size);
    var body :=
      if base64 then
        Or(And(upload, DecodeCmd(tmp, dest)), UndoCmd(dest))
      else And(upload, MoveCmd(tmp, dest));
    Seq(body, CleanupCmd(tmp))
  }

  function RunCmd(script: string, size: nat, seconds: nat, interpreter: string): Cmd {
    Seq(And(And(And(CatCmd(script), SizeTestCmd(script, size)), CdCmd(WORKDIR)),
            StartCmd(script, seconds, interpreter)),
        CleanupCmd(script))
  }

  function ReadCmd(count: nat, path: string): Cmd {
    Command([Plain("head"), Plain("-c"), Plain(Dec(count)), PathWord(path)])
  }

  // ----- The programs -----

  function Cleanup(tmp: string): M.Prog {
    M.Seq(M.SaveStatus, M.Seq(M.RmF(tmp), M.ExitSaved))
  }

  function Upload(parent: string, tmp: string, size: nat): M.Prog {
    M.And(M.And(M.MkdirP(parent), M.CatTo(tmp)), M.SizeIs(tmp, size))
  }

  /** `&&` and `||` have one precedence and associate to the left, so in base64 mode the group after
      `||` runs whichever of the four steps before it failed. */
  function WriteProg(parent: string, tmp: string, dest: string, size: nat, base64: bool): M.Prog {
    var upload := Upload(parent, tmp, size);
    var body :=
      if base64 then
        M.Or(M.And(upload, M.Base64To(tmp, dest)), M.Group(M.Seq(M.RmF(dest), M.False)))
      else M.And(upload, M.Mv(tmp, dest));
    M.Seq(body, Cleanup(tmp))
  }

  function RunProg(script: string, size: nat, seconds: nat, interpreter: string): M.Prog {
    M.Seq(M.And(M.And(M.And(M.CatTo(script), M.SizeIs(script, size)), M.Cd(WORKDIR)),
                M.Interpret(seconds, interpreter, script)),
          Cleanup(script))
  }

  // ----- Lexing -----

  lemma {:induction false} DecPlain(n: nat)
    ensures Dec(n) != "" && Dec(n)[0] != '#' && forall i :: 0 <= i < |Dec(n)| ==> IsSafe(Dec(n)[i]) && IsPlain(Dec(n)[i])
  {
    if n >= 10 {
      DecPlain(n / 10);
    }
  }

  lemma WordChar(c: char, rest: string)
    requires IsPlain(c)
    ensures WordAt([c] + rest) == Append([Ch(c, false)], WordAt(rest))
  {
    assert ([c] + rest)[1..] == rest;
  }

  lemma WordStatus(rest: string)
    requires Boundary(rest)
    ensures WordAt("$?" + rest) == Some(([Param("?")], rest))
  {
    assert ("$?" + rest)[2..] == rest;
    assert [Param("?")] + [] == [Param("?")];
  }

  lemma LexAssignStatus(rest: string)
    requires rest != "" && rest[0] == ';'
    ensures Tokens("r" + ("c" + ("=" + ("$?" + rest))), false) == Prepend([ASSIGN_STATUS], Tokens(rest, false))
  {
    var s := "r" + ("c" + ("=" + ("$?" + rest)));
    AssignStatusWord("$?" + rest, rest);
    assert s[0] == 'r';
  }

  lemma AssignStatusWord(value: string, rest: string)
    requires value == "$?" + rest && Boundary(rest)
    ensures WordAt("r" + ("c" + ("=" + value))) == Some((ASSIGN_STATUS.pieces, rest))
  {
    WordStatus(rest);
    WordChar('=', value);
    WordChar('c', "=" + value);
    WordChar('r', "c" + ("=" + value));
    assert [Ch('r', false)] + ([Ch('c', false)] + ([Ch('=', false)] + [Param("?")])) == ASSIGN_STATUS.pieces;
  }

  lemma LexSavedStatus()
    ensures Tokens("$rc", false) == Some(([SAVED_STATUS], ""))
  {
    var t := "$rc";
    assert WordAt(t) == Some((SAVED_STATUS.pieces, "")) by {
      assert t[1..] == "rc" && "rc"[1..] == "c" && "c"[1..] == "";
      assert NameLength("c") == 1;
      assert NameLength("rc") == 2;
      assert t[1..3] == "rc" && t[3..] == "";
      assert [Param("rc")] + [] == [Param("rc")];
    }
    assert Tokens("", false) == Some(([], ""));
    assert [SAVED_STATUS] + [] == [SAVED_STATUS];
  }

  lemma LexSpaced(w: string, rest: string, nested: bool)
    requires w != "" && w[0] != '#' && forall i :: 0 <= i < |w| ==> IsPlain(w[i])
    ensures Tokens(w + (" " + rest), nested) == Prepend([Plain(w)], Tokens(rest, nested))
  {
    LexPlain(w, " " + rest, nested);
    LexBlank(rest, nested);
  }

  /** What stands inside the command substitution. */
  lemma LexSubstitution(file: string, after: string)
    ensures Tokens("wc" + (" " + ("-c" + (" " + ("<" + (" " + (Quote(file) + (")" + after))))))), true)
         == Some((SizeWord(file).pieces[0].body, after))
  {
    var close := ")" + after;
    assert Tokens(close, true) == Some(([], after)) by {
      assert close[1..] == after;
    }
    LexPath(file, close, true);
    var t := Quote(file) + close;
    LexBlank(t, true);
    LexOperator("<", " " + t, true);
    LexSpaced("-c", "<" + (" " + t), true);
    LexSpaced("wc", "-c" + (" " + ("<" + (" " + t))), true);
    SubstitutionTokens(file);
  }

  lemma SubstitutionTokens(file: string)
    ensures [Plain("wc")] + ([Plain("-c")] + ([Op("<")] + ([PathWord(file)] + []))) == SizeWord(file).pieces[0].body
  {
  }

  /** The command substitution inside double quotes is one word. */
  lemma SubstitutionWord(body: string, tokens: seq<Token>, rest: string)
    requires Tokens(body, true) == Some((tokens, "\"" + rest)) && Boundary(rest)
    ensures WordAt("\"" + ("$(" + body)) == Some(([Sub(tokens)], rest))
  {
    var d := "$(" + body;
    assert d[2..] == body && ("\"" + d)[1..] == d && ("\"" + rest)[1..] == rest;
    assert DoubleQuoted("\"" + rest) == Some(([], rest));
    assert [Sub(tokens)] + [] == [Sub(tokens)];
    assert DoubleQuoted(d) == Some(([Sub(tokens)], rest));
  }

  lemma LexSizeWord(file: string, rest: string)
    ensures Tokens("\"" + ("$(" + ("wc" + (" " + ("-c" + (" " + ("<" + (" " + (Quote(file)
                   + (")" + ("\"" + (" " + rest))))))))))), false)
         == Prepend([SizeWord(file)], Tokens(rest, false))
  {
    var after := "\"" + (" " + rest);
    var body := "wc" + (" " + ("-c" + (" " + ("<" + (" " + (Quote(file) + (")" + after)))))));
    LexSubstitution(file, after);
    SubstitutionWord(body, SizeWord(file).pieces[0].body, " " + rest);
    var s := "\"" + ("$(" + body);
    assert s[0] == '"';
    assert Tokens(s, false) == Prepend([SizeWord(file)], Tokens(" " + rest, false));
    LexBlank(rest, false);
  }

  /** A script as a list of lexemes: what is spelled, and whether a blank follows it. */
  datatype Item =
    | Lit(w: string)
    | Path(p: string)
    | Oper(op: string)
    | SizeOf(file: string)
    | AssignStatus
    | SavedStatus

  datatype Lexeme = Lexeme(item: Item, gap: bool)

  function Spell(i: Item): string {
    match i
    case Lit(w) => w
    case Path(p) => Quote(p)
    case Oper(op) => op
    case SizeOf(file) => "\"$(wc -c < " + Quote(file) + ")\""
    case AssignStatus => "rc=$?"
    case SavedStatus => "$rc"
  }

  function TokenOf(i: Item): Token {
    match i
    case Lit(w) => Plain(w)
    case Path(p) => PathWord(p)
    case Oper(op) => Op(op)
    case SizeOf(file) => SizeWord(file)
    case AssignStatus => ASSIGN_STATUS
    case SavedStatus => SAVED_STATUS
  }

  function Out(l: Lexeme): string {
    if l.gap then Spell(l.item) + " " else Spell(l.item)
  }

  function Concat<T>(xs: seq<T>, f: T -> string): string {
    if xs == [] then "" else f(xs[0]) + Concat(xs[1..], f)
  }

  function Join(ls: seq<Lexeme>): string {
    Concat(ls, Out)
  }

  function TokensOf(ls: seq<Lexeme>): (ts: seq<Token>)
    ensures |ts| == |ls| && forall i :: 0 <= i < |ts| ==> ts[i] == TokenOf(ls[i].item)
  {
    seq(|ls|, i requires 0 <= i < |ls| => TokenOf(ls[i].item))
  }

  predicate IsPlainWord(w: string) {
    w != "" && w[0] != '#' && forall i :: 0 <= i < |w| ==> IsPlain(w[i])
  }

  predicate IsScriptOperator(op: string) {
    op == "&&" || op == "||" || op == ">" || op == "<" || op == ";"
  }

  /** A lexeme fits in front of `rest`: a word without a gap is last or meets a semicolon, and an
      operator always has a gap. */
  predicate Fits(l: Lexeme, last: bool, semicolon: bool) {
    (l.gap || last || semicolon)
    && match l.item
       case Lit(w) => IsPlainWord(w)
       case Path(_) => true
       case Oper(op) => l.gap && IsScriptOperator(op)
       case SizeOf(_) => l.gap
       case AssignStatus => !l.gap && !last
       case SavedStatus => last && !l.gap
  }

  predicate FitsAt(ls: seq<Lexeme>, i: nat)
    requires i < |ls|
  {
    Fits(ls[i], i == |ls| - 1, i < |ls| - 1 && ls[i + 1].item == Oper(";"))
  }

  predicate WellSpelled(ls: seq<Lexeme>) {
    forall i :: 0 <= i < |ls| ==> FitsAt(ls, i)
  }

  lemma SizeOfSplit(q: string, rest: string)
    ensures ("\"$(wc -c < " + q + ")\"" + " ") + rest
         == "\"" + ("$(" + ("wc" + (" " + ("-c" + (" " + ("<" + (" " + (q + (")" + ("\"" + (" " + rest)))))))))))
  {
    assert "\"$(wc -c < " == "\"" + ("$(" + ("wc" + (" " + ("-c" + (" " + ("<" + " "))))));
    assert ")\"" == ")" + "\"";
  }

  lemma LexLexeme(l: Lexeme, rest: string)
    requires Fits(l, rest == "", rest != "" && rest[0] == ';')
    ensures Tokens(Out(l) + rest, false) == Prepend([TokenOf(l.item)], Tokens(rest, false))
  {
    var after := if l.gap then " " + rest else rest;
    assert Out(l) + rest == Spell(l.item) + after;
    if l.gap {
      LexBlank(rest, false);
    }
    match l.item
    case Lit(w) => LexPlain(w, after, false);
    case Path(p) => LexPath(p, after, false);
    case Oper(op) => LexOperator(op, after, false);
    case SizeOf(file) =>
      SizeOfSplit(Quote(file), rest);
      LexSizeWord(file, rest);
    case AssignStatus =>
      assert "rc=$?" + rest == "r" + ("c" + ("=" + ("$?" + rest)));
      LexAssignStatus(rest);
    case SavedStatus =>
      assert Spell(l.item) + after == "$rc" && Tokens(rest, false) == Some(([], ""));
      assert [SAVED_STATUS] + [] == [SAVED_STATUS];
      LexSavedStatus();
  }

  lemma JoinNonEmpty(ls: seq<Lexeme>)
    requires WellSpelled(ls)
    ensures Join(ls) == "" <==> ls == []
  {
    if ls != [] {
      assert FitsAt(ls, 0);
      if ls[0].item.Path? {
        QuoteWordAt(ls[0].item.p, "");
      }
    }
  }

  lemma WellSpelledTail(ls: seq<Lexeme>)
    requires ls != [] && WellSpelled(ls)
    ensures WellSpelled(ls[1..])
  {
    forall i | 0 <= i < |ls| - 1 ensures FitsAt(ls[1..], i) {
      assert FitsAt(ls, i + 1);
    }
  }

  /** The shell's tokens for a well-spelled script are exactly the intended ones. */
  lemma {:induction false} LexJoin(ls: seq<Lexeme>)
    requires WellSpelled(ls)
    ensures Tokens(Join(ls), false) == Some((TokensOf(ls), ""))
  {
    if ls != [] {
      var rest := Join(ls[1..]);
      if |ls| >= 2 && ls[1].item == Oper(";") {
        assert ls[1..][0] == ls[1];
        assert rest[0] == ';';
      }
      assert FitsAt(ls, 0);
      WellSpelledTail(ls);
      LexJoin(ls[1..]);
      JoinNonEmpty(ls[1..]);
      LexLexeme(ls[0], rest);
      assert TokensOf(ls) == [TokenOf(ls[0].item)] + TokensOf(ls[1..]);
    }
  }

  lemma {:induction false} ConcatAppend<T>(a: seq<T>, b: seq<T>, f: T -> string)
    ensures Concat(a + b, f) == Concat(a, f) + Concat(b, f)
  {
    if a == [] {
      assert a + b == b;
    } else {
      ConcatAppend(a[1..], b, f);
      assert (a + b)[1..] == a[1..] + b;
      Associate(f(a[0]), Concat(a[1..], f), Concat(b, f));
    }
  }

  lemma JoinAppend(a: seq<Lexeme>, b: seq<Lexeme>)
    ensures Join(a + b) == Join(a) + Join(b)
  {
    ConcatAppend(a, b, Out);
  }

  // ----- The scripts as lexemes -----

  function Spaced(w: string): Lexeme { Lexeme(Lit(w), true) }
  function Operator(op: string): Lexeme { Lexeme(Oper(op), true) }
  function PathArg(p: string): Lexeme { Lexeme(Path(p), true) }
  function LastPath(p: string): Lexeme { Lexeme(Path(p), false) }

  function MkdirLexemes(dir: string): seq<Lexeme> { [Spaced("mkdir"), Spaced("-p"), PathArg(dir), Operator("&&")] }

  function CatLexemes(dst: string): seq<Lexeme> { [Spaced("cat"), Operator(">"), PathArg(dst), Operator("&&")] }

  function SizeTestLexemes(file: string, size: nat): seq<Lexeme> {
    [Spaced("["), Lexeme(SizeOf(file), true), Spaced("-eq"), Spaced(Dec(size)), Spaced("]"), Operator("&&")]
  }

  function DecodeLexemes(tmp: string, dest: string): seq<Lexeme> {
    [Spaced("base64"), Spaced("-d"), PathArg(tmp), Operator(">"), PathArg(dest), Operator("||"), Spaced("{"),
     Spaced("rm")]
  }

  function UndoLexemes(dest: string): seq<Lexeme> {
    [Spaced("-f"), LastPath(dest), Operator(";"), Lexeme(Lit("false"), false), Operator(";"), Lexeme(Lit("}"), false)]
  }

  function FinishLexemes(tmp: string, dest: string, base64: bool): seq<Lexeme> {
    if base64 then
      DecodeLexemes(tmp, dest) + UndoLexemes(dest)
    else [Spaced("mv"), Spaced("-f"), PathArg(tmp), LastPath(dest)]
  }

  function CleanupLexemes(tmp: string): seq<Lexeme> {
    [Operator(";"), Lexeme(AssignStatus, false), Operator(";"), Spaced("rm"), Spaced("-f"), LastPath(tmp)]
    + [Operator(";"), Spaced("exit"), Lexeme(SavedStatus, false)]
  }

  function StartLexemes(dir: string, script: string, seconds: nat, interpreter: string): seq<Lexeme> {
    [Spaced("cd"), PathArg(dir), Operator("&&")]
    + [Spaced("timeout"), Spaced("-k"), Spaced("1"), Spaced(Dec(seconds)), PathArg(interpreter), LastPath(script)]
  }

  function ReadLexemes(count: nat, path: string): seq<Lexeme> {
    [Spaced("head"), Spaced("-c"), Spaced(Dec(count)), LastPath(path)]
  }

  lemma Join1(a: Lexeme)
    ensures Join([a]) == Out(a)
  {
    assert [a][1..] == [];
    assert Concat([a][1..], Out) == "";
    assert Out(a) + "" == Out(a);
  }

  lemma Join2(a: Lexeme, b: Lexeme)
    ensures Join([a, b]) == Out(a) + Out(b)
  {
    Join1(a);
    Join1(b);
    JoinAppend([a], [b]);
    assert [a, b] == [a] + [b];
  }

  lemma Join3(a: Lexeme, b: Lexeme, c: Lexeme)
    ensures Join([a, b, c]) == Out(a) + Out(b) + Out(c)
  {
    Join2(a, b);
    Join1(c);
    JoinAppend([a, b], [c]);
    assert [a, b, c] == [a, b] + [c];
  }

  lemma Join4(a: Lexeme, b: Lexeme, c: Lexeme, d: Lexeme)
    ensures Join([a, b, c, d]) == Out(a) + Out(b) + Out(c) + Out(d)
  {
    Join3(a, b, c);
    Join1(d);
    JoinAppend([a, b, c], [d]);
    assert [a, b, c, d] == [a, b, c] + [d];
  }

  lemma JoinThree(a: seq<Lexeme>, b: seq<Lexeme>, c: seq<Lexeme>)
    ensures Join(a + b + c) == Join(a) + Join(b) + Join(c)
  {
    JoinAppend(a, b);
    JoinAppend(a + b, c);
  }

  lemma MkdirSpelling(dir: string)
    ensures Join(MkdirLexemes(dir)) == MkdirText(dir)
  {
    Join4(Spaced("mkdir"), Spaced("-p"), PathArg(dir), Operator("&&"));
    assert "mkdir" + " " + ("-p" + " ") == "mkdir -p ";
    assert " " + ("&&" + " ") == " && ";
  }

  lemma CatSpelling(dst: string)
    ensures Join(CatLexemes(dst)) == CatText(dst)
  {
    Join4(Spaced("cat"), Operator(">"), PathArg(dst), Operator("&&"));
    assert "cat" + " " + (">" + " ") == "cat > ";
    assert " " + ("&&" + " ") == " && ";
  }

  lemma SizeTestString(q: string, n: string)
    ensures "[" + " " + ("\"$(wc -c < " + q + ")\"" + " ") + ("-eq" + " ") + (n + " " + ("]" + " ") + ("&&" + " "))
         == "[ \"$(wc -c < " + q + ")\" -eq " + n + " ] && "
  {
    assert "[" + " " + "\"$(wc -c < " == "[ \"$(wc -c < ";
    assert ")\"" + " " + ("-eq" + " ") == ")\" -eq ";
    assert " " + ("]" + " ") + ("&&" + " ") == " ] && ";
  }

  lemma SizeTestSpelling(file: string, size: nat)
    ensures Join(SizeTestLexemes(file, size)) == SizeTestText(file, size)
  {
    var a := [Spaced("["), Lexeme(SizeOf(file), true), Spaced("-eq")];
    var b := [Spaced(Dec(size)), Spaced("]"), Operator("&&")];
    JoinAppend(a, b);
    assert SizeTestLexemes(file, size) == a + b;
    Join3(a[0], a[1], a[2]);
    Join3(b[0], b[1], b[2]);
    SizeTestString(Quote(file), Dec(size));
  }

  lemma MoveString(p: string, q: string)
    ensures "mv" + " " + ("-f" + " ") + (p + " ") + q == "mv -f " + p + " " + q
  {
    assert "mv" + " " + ("-f" + " ") == "mv -f ";
  }

  lemma MoveSpelling(tmp: string, dest: string)
    ensures Join(FinishLexemes(tmp, dest, false)) == FinishText(tmp, dest, false)
  {
    Join4(Spaced("mv"), Spaced("-f"), PathArg(tmp), LastPath(dest));
    MoveString(Quote(tmp), Quote(dest));
  }

  lemma DecodeString(p: string, q: string)
    ensures "base64" + " " + ("-d" + " ") + (p + " ") + (">" + " ") + (q + " " + ("||" + " ") + ("{" + " ") + ("rm" + " "))
         == "base64 -d " + p + " > " + q + " || { rm "
  {
    assert "base64" + " " + ("-d" + " ") == "base64 -d ";
    assert " " + (">" + " ") == " > ";
    assert " " + ("||" + " ") + ("{" + " ") + ("rm" + " ") == " || { rm ";
  }

  lemma UndoString(q: string)
    ensures ("-f" + " " + q) + (";" + " " + "false" + (";" + " ") + "}") == "-f " + q + "; false; }"
  {
    assert ";" + " " + "false" + (";" + " ") + "}" == "; false; }";
  }

  lemma FinishString(p: string, q: string)
    ensures ("base64 -d " + p + " > " + q + " || { rm ") + ("-f " + q + "; false; }")
         == "base64 -d " + p + " > " + q + " || { rm -f " + q + "; false; }"
  {
    assert " || { rm " + "-f " == " || { rm -f ";
  }

  lemma DecodeHead(tmp: string, dest: string)
    ensures Join(DecodeLexemes(tmp, dest)) == "base64 -d " + Quote(tmp) + " > " + Quote(dest) + " || { rm "
  {
    var a := [Spaced("base64"), Spaced("-d"), PathArg(tmp), Operator(">")];
    var b := [PathArg(dest), Operator("||"), Spaced("{"), Spaced("rm")];
    assert DecodeLexemes(tmp, dest) == a + b;
    JoinAppend(a, b);
    Join4(Spaced("base64"), Spaced("-d"), PathArg(tmp), Operator(">"));
    Join4(PathArg(dest), Operator("||"), Spaced("{"), Spaced("rm"));
    DecodeString(Quote(tmp), Quote(dest));
  }

  lemma UndoTail(dest: string)
    ensures Join(UndoLexemes(dest)) == "-f " + Quote(dest) + "; false; }"
  {
    var a := [Spaced("-f"), LastPath(dest)];
    var b := [Operator(";"), Lexeme(Lit("false"), false), Operator(";"), Lexeme(Lit("}"), false)];
    assert UndoLexemes(dest) == a + b;
    JoinAppend(a, b);
    Join2(Spaced("-f"), LastPath(dest));
    Join4(Operator(";"), Lexeme(Lit("false"), false), Operator(";"), Lexeme(Lit("}"), false));
    UndoString(Quote(dest));
  }

  lemma DecodeSpelling(tmp: string, dest: string)
    ensures Join(FinishLexemes(tmp, dest, true)) == FinishText(tmp, dest, true)
  {
    JoinAppend(DecodeLexemes(tmp, dest), UndoLexemes(dest));
    DecodeHead(tmp, dest);
    UndoTail(dest);
    FinishString(Quote(tmp), Quote(dest));
  }

  lemma CleanupSpelling(tmp: string)
    ensures Join(CleanupLexemes(tmp)) == CleanupText(tmp)
  {
    var a := [Operator(";"), Lexeme(AssignStatus, false), Operator(";")];
    var b := [Spaced("rm"), Spaced("-f"), LastPath(tmp)];
    var c := [Operator(";"), Spaced("exit"), Lexeme(SavedStatus, false)];
    Join3(a[0], a[1], a[2]);
    Join3(b[0], b[1], b[2]);
    Join3(c[0], c[1], c[2]);
    JoinThree(a, b, c);
    assert CleanupLexemes(tmp) == a + b + c;
    CleanupString(Quote(tmp));
  }

  lemma CleanupString(q: string)
    ensures ((";" + " ") + "rc=$?" + (";" + " ")) + (("rm" + " ") + ("-f" + " ") + q) + ((";" + " ") + ("exit" + " ") + "$rc")
         == "; rc=$?; rm -f " + q + "; exit $rc"
  {
    assert ((";" + " ") + "rc=$?" + (";" + " ")) + (("rm" + " ") + ("-f" + " ")) == "; rc=$?; rm -f ";
    assert (";" + " ") + ("exit" + " ") + "$rc" == "; exit $rc";
  }

  lemma StartString(w: string, n: string, i: string, p: string)
    ensures "cd" + " " + (w + " ") + ("&&" + " ")
            + ("timeout" + " " + ("-k" + " ") + ("1" + " ") + (n + " "))
            + (i + " " + p)
         == "cd " + w + " && timeout -k 1 " + n + " " + i + " " + p
  {
    assert "cd" + " " == "cd ";
    assert " " + ("&&" + " ") + ("timeout" + " " + ("-k" + " ") + ("1" + " ")) == " && timeout -k 1 ";
  }

  lemma StartSpelling(dir: string, script: string, seconds: nat, interpreter: string)
    ensures Join(StartLexemes(dir, script, seconds, interpreter)) == StartText(dir, script, seconds, interpreter)
  {
    var a := [Spaced("cd"), PathArg(dir), Operator("&&")];
    var b := [Spaced("timeout"), Spaced("-k"), Spaced("1"), Spaced(Dec(seconds))];
    var c := [PathArg(interpreter), LastPath(script)];
    assert StartLexemes(dir, script, seconds, interpreter) == a + b + c;
    JoinThree(a, b, c);
    Join3(a[0], a[1], a[2]);
    Join4(b[0], b[1], b[2], b[3]);
    Join2(c[0], c[1]);
    StartString(Quote(dir), Dec(seconds), Quote(interpreter), Quote(script));
  }

  lemma ReadSpelling(count: nat, path: string)
    ensures Join(ReadLexemes(count, path)) == ReadText(count, path)
  {
    Join4(Spaced("head"), Spaced("-c"), Spaced(Dec(count)), LastPath(path));
    assert "head" + " " + ("-c" + " ") == "head -c ";
  }

  // ----- Fragments in sequence -----

  /** A fragment that is followed by more text, starting with a semicolon or not. */
  predicate Continues(ls: seq<Lexeme>, semicolon: bool) {
    forall i :: 0 <= i < |ls| ==> ContinuesAt(ls, semicolon, i)
  }

  predicate ContinuesAt(ls: seq<Lexeme>, semicolon: bool, i: nat)
    requires i < |ls|
  {
    Fits(ls[i], false, if i == |ls| - 1 then semicolon else ls[i + 1].item == Oper(";"))
  }

  lemma ContinuesAppend(a: seq<Lexeme>, b: seq<Lexeme>, semicolon: bool)
    requires b != [] && Continues(a, b[0].item == Oper(";")) && Continues(b, semicolon)
    ensures Continues(a + b, semicolon)
  {
    forall i | 0 <= i < |a + b| ensures ContinuesAt(a + b, semicolon, i) {
      if i < |a| {
        assert ContinuesAt(a, b[0].item == Oper(";"), i);
      } else {
        assert ContinuesAt(b, semicolon, i - |a|);
      }
    }
  }

  lemma WellSpelledAppend(a: seq<Lexeme>, b: seq<Lexeme>)
    requires b != [] && Continues(a, b[0].item == Oper(";")) && WellSpelled(b)
    ensures WellSpelled(a + b)
  {
    forall i | 0 <= i < |a + b| ensures FitsAt(a + b, i) {
      if i < |a| {
        assert ContinuesAt(a, b[0].item == Oper(";"), i);
      } else {
        assert FitsAt(b, i - |a|);
      }
    }
  }

  lemma TokensAppend(a: seq<Lexeme>, b: seq<Lexeme>)
    ensures TokensOf(a + b) == TokensOf(a) + TokensOf(b)
  {
  }

  const AND_IF: Token := Op("&&")

  lemma PrintRun(words: seq<Token>)
    ensures Print(Command(words)) == words
  {
    assert words + [] == words;
  }

  lemma PrintInto(words: seq<Token>, dst: string)
    ensures Print(Simple(words, [Redirect(">", PathWord(dst))])) == words + [Op(">"), PathWord(dst)]
  {
    var r := [Redirect(">", PathWord(dst))];
    assert r[1..] == [];
    assert PrintRedirects(r) == [Op(">"), PathWord(dst)];
  }

  lemma MkdirContinues(dir: string)
    ensures Continues(MkdirLexemes(dir), false)
  {
  }

  lemma MkdirFragment(dir: string)
    ensures TokensOf(MkdirLexemes(dir)) == Print(MkdirCmd(dir)) + [AND_IF]
  {
    PrintRun([Plain("mkdir"), Plain("-p"), PathWord(dir)]);
  }

  lemma CatFragment(dst: string)
    ensures Continues(CatLexemes(dst), false)
    ensures TokensOf(CatLexemes(dst)) == Print(CatCmd(dst)) + [AND_IF]
  {
    PrintInto([Plain("cat")], dst);
  }

  lemma SizeTestContinues(file: string, size: nat)
    ensures Continues(SizeTestLexemes(file, size), false)
  {
    DecPlain(size);
  }

  lemma SizeTestFragment(file: string, size: nat)
    ensures TokensOf(SizeTestLexemes(file, size)) == Print(SizeTestCmd(file, size)) + [AND_IF]
  {
    PrintRun([Plain("["), SizeWord(file), Plain("-eq"), Plain(Dec(size)), Plain("]")]);
  }

  lemma MoveContinues(tmp: string, dest: string)
    ensures Continues(FinishLexemes(tmp, dest, false), true)
  {
  }

  lemma MoveFragment(tmp: string, dest: string)
    ensures TokensOf(FinishLexemes(tmp, dest, false)) == Print(MoveCmd(tmp, dest))
  {
    PrintRun([Plain("mv"), Plain("-f"), PathWord(tmp), PathWord(dest)]);
  }

  function DecodeCmd(tmp: string, dest: string): Cmd {
    Simple([Plain("base64"), Plain("-d"), PathWord(tmp)], [Redirect(">", PathWord(dest))])
  }

  function UndoCmd(dest: string): Cmd {
    Group(Seq(RemoveCmd(dest), Command([Plain("false")])))
  }

  lemma DecodeHeadContinues(tmp: string, dest: string)
    ensures Continues(DecodeLexemes(tmp, dest), false)
  {
  }

  lemma UndoTailContinues(dest: string)
    ensures Continues(UndoLexemes(dest), true)
  {
  }

  lemma DecodeContinues(tmp: string, dest: string)
    ensures Continues(FinishLexemes(tmp, dest, true), true)
  {
    DecodeHeadContinues(tmp, dest);
    UndoTailContinues(dest);
    ContinuesAppend(DecodeLexemes(tmp, dest), UndoLexemes(dest), true);
  }

  lemma PrintUndo(dest: string)
    ensures Print(UndoCmd(dest))
         == [OPEN, Plain("rm"), Plain("-f"), PathWord(dest), Op(";"), Plain("false"), Op(";"), CLOSE]
  {
    PrintRun([Plain("rm"), Plain("-f"), PathWord(dest)]);
    PrintRun([Plain("false")]);
  }

  lemma DecodeFragment(tmp: string, dest: string)
    ensures TokensOf(FinishLexemes(tmp, dest, true)) == Print(DecodeCmd(tmp, dest)) + [Op("||")] + Print(UndoCmd(dest))
  {
    PrintInto([Plain("base64"), Plain("-d"), PathWord(tmp)], dest);
    PrintUndo(dest);
    assert Plain("{") == OPEN && Plain("}") == CLOSE;
  }

  lemma CleanupSpelled(tmp: string)
    ensures WellSpelled(CleanupLexemes(tmp))
  {
  }

  lemma PrintCleanup(tmp: string)
    ensures Print(CleanupCmd(tmp))
         == [ASSIGN_STATUS, Op(";"), Plain("rm"), Plain("-f"), PathWord(tmp), Op(";"), Plain("exit"), SAVED_STATUS]
  {
    PrintRun([ASSIGN_STATUS]);
    PrintRun([Plain("rm"), Plain("-f"), PathWord(tmp)]);
    PrintRun([Plain("exit"), SAVED_STATUS]);
  }

  lemma CleanupFragment(tmp: string)
    ensures TokensOf(CleanupLexemes(tmp)) == [Op(";")] + Print(CleanupCmd(tmp))
  {
    PrintCleanup(tmp);
  }

  function StartCmd(script: string, seconds: nat, interpreter: string): Cmd {
    Command([Plain("timeout"), Plain("-k"), Plain("1"), Plain(Dec(seconds)), PathWord(interpreter), PathWord(script)])
  }

  lemma StartContinues(dir: string, script: string, seconds: nat, interpreter: string)
    ensures Continues(StartLexemes(dir, script, seconds, interpreter), true)
  {
    DecPlain(seconds);
  }

  lemma StartFragment(dir: string, script: string, seconds: nat, interpreter: string)
    ensures TokensOf(StartLexemes(dir, script, seconds, interpreter))
         == Print(CdCmd(dir)) + [AND_IF] + Print(StartCmd(script, seconds, interpreter))
  {
    PrintRun([Plain("cd"), PathWord(dir)]);
    PrintRun([Plain("timeout"), Plain("-k"), Plain("1"), Plain(Dec(seconds)), PathWord(interpreter), PathWord(script)]);
  }

  // ----- Elaboration of the simple commands -----

  lemma LiteralPath(p: string)
    ensures Literal(PathWord(p)) == Some(p)
  {
    if Literal(PathWord(p)).Some? {
      assert Literal(PathWord(p)).value == p;
    }
  }

  lemma LiteralWord(w: string)
    requires forall i :: 0 <= i < |w| ==> w[i] != '*' && w[i] != '?' && w[i] != '[' && w[i] != '~'
    ensures Literal(Plain(w)) == Some(w)
  {
    if Literal(Plain(w)).Some? {
      assert Literal(Plain(w)).value == w;
    }
  }

  lemma LiteralsAre(ts: seq<Token>, argv: seq<string>)
    requires |ts| == |argv| && forall i :: 0 <= i < |ts| ==> Literal(ts[i]) == Some(argv[i])
    ensures Literals(ts) == Some(argv)
  {
    assert Literals(ts).value == argv;
  }

  lemma ElaborateMkdir(dir: string)
    ensures Elaborate(MkdirCmd(dir)) == Some(M.MkdirP(dir))
  {
    LiteralWord("mkdir");
    LiteralWord("-p");
    LiteralPath(dir);
    LiteralsAre([Plain("mkdir"), Plain("-p"), PathWord(dir)], ["mkdir", "-p", dir]);
  }

  lemma ElaborateCat(dst: string)
    ensures Elaborate(CatCmd(dst)) == Some(M.CatTo(dst))
  {
    LiteralWord("cat");
    LiteralPath(dst);
    LiteralsAre([Plain("cat")], ["cat"]);
  }

  lemma ElaborateRemove(file: string)
    ensures Elaborate(RemoveCmd(file)) == Some(M.RmF(file))
  {
    LiteralWord("rm");
    LiteralWord("-f");
    LiteralPath(file);
    var argv := ["rm", "-f", file];
    LiteralsAre([Plain("rm"), Plain("-f"), PathWord(file)], argv);
    assert |argv[0]| != |"mkdir"|;
  }

  lemma ElaborateMove(src: string, dst: string)
    ensures Elaborate(MoveCmd(src, dst)) == Some(M.Mv(src, dst))
  {
    LiteralWord("mv");
    LiteralWord("-f");
    LiteralPath(src);
    LiteralPath(dst);
    LiteralsAre([Plain("mv"), Plain("-f"), PathWord(src), PathWord(dst)], ["mv", "-f", src, dst]);
  }

  lemma ElaborateDecode(src: string, dst: string)
    ensures Elaborate(DecodeCmd(src, dst)) == Some(M.Base64To(src, dst))
  {
    LiteralWord("base64");
    LiteralWord("-d");
    LiteralPath(src);
    LiteralPath(dst);
    LiteralsAre([Plain("base64"), Plain("-d"), PathWord(src)], ["base64", "-d", src]);
  }

  lemma ElaborateFalse()
    ensures Elaborate(Command([Plain("false")])) == Some(M.False)
  {
    LiteralWord("false");
    LiteralsAre([Plain("false")], ["false"]);
    assert Plain("false") != ASSIGN_STATUS by {
      assert |Plain("false").pieces| == 5;
    }
  }

  lemma ElaborateCd(dir: string)
    ensures Elaborate(CdCmd(dir)) == Some(M.Cd(dir))
  {
    LiteralWord("cd");
    LiteralPath(dir);
    LiteralsAre([Plain("cd"), PathWord(dir)], ["cd", dir]);
    assert Plain("cd") != Plain("exit") by {
      assert |Plain("cd").pieces| == 2 && |Plain("exit").pieces| == 4;
    }
  }

  lemma ElaborateSizeTest(file: string, size: nat)
    ensures Elaborate(SizeTestCmd(file, size)) == Some(M.SizeIs(file, size))
  {
    DecPlain(size);
    ParseDec(size);
    LiteralWord(Dec(size));
    FileSizeWord(file);
  }

  lemma ListPrintable(c: Cmd, first: string)
    requires c.Simple? && c.words != [] && c.words[0] == Plain(first) && !IsReservedWord(first)
    requires forall i :: 0 <= i < |c.words| ==> c.words[i].Word?
    requires forall i :: 0 <= i < |c.redirects| ==> IsRedirectOp(Op(c.redirects[i].op)) && c.redirects[i].target.Word?
    ensures PrintableList(c)
  {
    SimplePrintable(c, first);
    assert PrintableAndOr(c);
  }

  lemma PrintCount(file: string)
    ensures Print(Simple([Plain("wc"), Plain("-c")], [Redirect("<", PathWord(file))])) == SizeWord(file).pieces[0].body
  {
    var redirects := [Redirect("<", PathWord(file))];
    assert redirects[1..] == [];
    assert PrintRedirects(redirects) == [Op("<"), PathWord(file)];
  }

  lemma FileSizeWord(file: string)
    ensures FileSizeOf(SizeWord(file)) == Some(file)
  {
    var c := Simple([Plain("wc"), Plain("-c")], [Redirect("<", PathWord(file))]);
    PrintCount(file);
    ListPrintable(c, "wc");
    ParseInvertsPrint(c);
    LiteralWord("wc");
    LiteralWord("-c");
    LiteralPath(file);
    LiteralsAre([Plain("wc"), Plain("-c")], ["wc", "-c"]);
  }

  lemma ElaborateStart(script: string, seconds: nat, interpreter: string)
    ensures Elaborate(StartCmd(script, seconds, interpreter)) == Some(M.Interpret(seconds, interpreter, script))
  {
    LiteralWord("timeout");
    LiteralWord("-k");
    LiteralWord("1");
    DecPlain(seconds);
    ParseDec(seconds);
    LiteralWord(Dec(seconds));
    LiteralPath(interpreter);
    LiteralPath(script);
    LiteralsAre([Plain("timeout"), Plain("-k"), Plain("1"), Plain(Dec(seconds)), PathWord(interpreter), PathWord(script)],
                ["timeout", "-k", "1", Dec(seconds), interpreter, script]);
  }

  lemma ElaborateHead(count: nat, path: string)
    ensures Elaborate(ReadCmd(count, path)) == Some(M.Head(count, path))
  {
    LiteralWord("head");
    LiteralWord("-c");
    DecPlain(count);
    ParseDec(count);
    LiteralWord(Dec(count));
    LiteralPath(path);
    LiteralsAre([Plain("head"), Plain("-c"), Plain(Dec(count)), PathWord(path)], ["head", "-c", Dec(count), path]);
    assert |"head"| != |"mv"|;
  }

  lemma ElaborateCleanup(tmp: string)
    ensures Elaborate(CleanupCmd(tmp)) == Some(Cleanup(tmp))
  {
    ElaborateRemove(tmp);
    assert Elaborate(Command([ASSIGN_STATUS])) == Some(M.SaveStatus);
    assert Elaborate(Command([Plain("exit"), SAVED_STATUS])) == Some(M.ExitSaved);
  }

  // ----- Each text means its program -----

  // The next lemmas put commands together without looking inside them.

  lemma Reassociate<T>(a: seq<T>, b: seq<T>, c: seq<T>, d: seq<T>, x: seq<T>)
    ensures a + x + (b + x + (c + x + d)) == a + x + b + x + c + x + d
  {
    assert b + x + (c + x + d) == b + x + c + x + d;
  }

  lemma PrintAnd3(a: Cmd, b: Cmd, c: Cmd, d: Cmd)
    ensures Print(And(And(And(a, b), c), d))
         == Print(a) + [AND_IF] + Print(b) + [AND_IF] + Print(c) + [AND_IF] + Print(d)
  {
    assert Print(And(a, b)) == Print(a) + [AND_IF] + Print(b);
    assert Print(And(And(a, b), c)) == Print(And(a, b)) + [AND_IF] + Print(c);
  }

  lemma ChainTokens(a: Cmd, b: Cmd, c: Cmd, d: Cmd)
    ensures Print(a) + [AND_IF] + (Print(b) + [AND_IF] + (Print(c) + [AND_IF] + Print(d)))
         == Print(And(And(And(a, b), c), d))
  {
    Reassociate(Print(a), Print(b), Print(c), Print(d), [AND_IF]);
    PrintAnd3(a, b, c, d);
  }

  lemma ChainUndo(mkdir: Cmd, cat: Cmd, test: Cmd, last: Cmd, undo: Cmd)
    ensures Print(mkdir) + [AND_IF]
            + (Print(cat) + [AND_IF] + (Print(test) + [AND_IF] + (Print(last) + [Op("||")] + Print(undo))))
         == Print(Or(And(And(And(mkdir, cat), test), last), undo))
  {
    ChainTokens(mkdir, cat, test, last);
  }

  lemma ChainPrintable(a: Cmd, b: Cmd, c: Cmd, d: Cmd)
    requires PrintableCommand(a) && PrintableCommand(b) && PrintableCommand(c) && PrintableCommand(d)
    ensures PrintableAndOr(And(And(And(a, b), c), d))
  {
    assert PrintableAndOr(a);
    assert PrintableAndOr(And(a, b));
    assert PrintableAndOr(And(And(a, b), c));
  }

  lemma ScriptPrintable(body: Cmd, save: Cmd, remove: Cmd, exit: Cmd)
    requires PrintableAndOr(body) && PrintableCommand(save) && PrintableCommand(remove) && PrintableCommand(exit)
    ensures PrintableList(Seq(body, Seq(save, Seq(remove, exit))))
  {
    assert PrintableList(exit);
    assert PrintableList(Seq(remove, exit));
  }

  lemma ChainElaborates(a: Cmd, b: Cmd, c: Cmd, d: Cmd, pa: M.Prog, pb: M.Prog, pc: M.Prog, pd: M.Prog)
    requires Elaborate(a) == Some(pa) && Elaborate(b) == Some(pb) && Elaborate(c) == Some(pc) && Elaborate(d) == Some(pd)
    ensures Elaborate(And(And(And(a, b), c), d)) == Some(M.And(M.And(M.And(pa, pb), pc), pd))
  {
    assert Elaborate(And(a, b)) == Some(M.And(pa, pb));
    assert Elaborate(And(And(a, b), c)) == Some(M.And(M.And(pa, pb), pc));
  }

  lemma SeqElaborates(a: Cmd, b: Cmd, pa: M.Prog, pb: M.Prog)
    requires Elaborate(a) == Some(pa) && Elaborate(b) == Some(pb)
    ensures Elaborate(Seq(a, b)) == Some(M.Seq(pa, pb)) && Elaborate(Or(a, b)) == Some(M.Or(pa, pb))
  {
  }

  lemma SimplePrintable(c: Cmd, first: string)
    requires c.Simple? && c.words != [] && c.words[0] == Plain(first) && !IsReservedWord(first)
    requires forall i :: 0 <= i < |c.words| ==> c.words[i].Word?
    requires forall i :: 0 <= i < |c.redirects| ==> IsRedirectOp(Op(c.redirects[i].op)) && c.redirects[i].target.Word?
    ensures PrintableCommand(c)
  {
    BareWord(first);
  }

  lemma SizeTestPrintable(file: string, size: nat)
    ensures PrintableCommand(SizeTestCmd(file, size))
  {
    BareWord("[");
  }

  lemma UploadPrintable(parent: string, tmp: string)
    ensures PrintableCommand(MkdirCmd(parent)) && PrintableCommand(CatCmd(tmp))
  {
    SimplePrintable(MkdirCmd(parent), "mkdir");
    SimplePrintable(CatCmd(tmp), "cat");
  }

  lemma FinishPrintable(tmp: string, dest: string)
    ensures PrintableCommand(DecodeCmd(tmp, dest)) && PrintableCommand(MoveCmd(tmp, dest))
  {
    SimplePrintable(DecodeCmd(tmp, dest), "base64");
    SimplePrintable(MoveCmd(tmp, dest), "mv");
  }

  lemma CdPrintable(dir: string)
    ensures PrintableCommand(CdCmd(dir))
  {
    SimplePrintable(CdCmd(dir), "cd");
  }

  lemma StartPrintable(script: string, seconds: nat, interpreter: string)
    ensures PrintableCommand(StartCmd(script, seconds, interpreter))
  {
    SimplePrintable(StartCmd(script, seconds, interpreter), "timeout");
  }

  lemma RemovePrintable(file: string)
    ensures PrintableCommand(RemoveCmd(file))
  {
    SimplePrintable(RemoveCmd(file), "rm");
  }

  lemma FalsePrintable()
    ensures PrintableCommand(Command([Plain("false")]))
  {
    SimplePrintable(Command([Plain("false")]), "false");
  }

  lemma UndoPrintable(dest: string)
    ensures PrintableCommand(UndoCmd(dest))
  {
    RemovePrintable(dest);
    FalsePrintable();
    PairPrintable(RemoveCmd(dest), Command([Plain("false")]));
  }

  lemma PairPrintable(a: Cmd, b: Cmd)
    requires PrintableCommand(a) && PrintableCommand(b)
    ensures PrintableCommand(Group(Seq(a, b)))
  {
    assert PrintableAndOr(a) && PrintableAndOr(b) && PrintableList(b);
    assert PrintableList(Seq(a, b));
  }

  lemma StatusPrintable()
    ensures PrintableCommand(Command([ASSIGN_STATUS])) && PrintableCommand(Command([Plain("exit"), SAVED_STATUS]))
  {
    SimplePrintable(Command([Plain("exit"), SAVED_STATUS]), "exit");
    assert !ASSIGN_STATUS.pieces[3].Ch?;
    assert Bare(ASSIGN_STATUS) == None;
  }

  lemma WholePrintable(body: Cmd, tmp: string)
    requires PrintableAndOr(body)
    ensures PrintableList(Seq(body, CleanupCmd(tmp)))
  {
    RemovePrintable(tmp);
    StatusPrintable();
    ScriptPrintable(body, Command([ASSIGN_STATUS]), RemoveCmd(tmp), Command([Plain("exit"), SAVED_STATUS]));
  }

  lemma ParseText(text: string, ls: seq<Lexeme>, c: Cmd)
    requires text == Join(ls) && WellSpelled(ls) && TokensOf(ls) == Print(c) && PrintableList(c)
    ensures Parse(text) == Some(c)
  {
    LexJoin(ls);
    ParseInvertsPrint(c);
  }

  lemma JoinFour(a: seq<Lexeme>, b: seq<Lexeme>, c: seq<Lexeme>, d: seq<Lexeme>)
    ensures Join(a + (b + (c + d))) == Join(a) + Join(b) + Join(c) + Join(d)
  {
    JoinAppend(c, d);
    JoinAppend(b, c + d);
    JoinAppend(a, b + (c + d));
    Regroup4(Join(a), Join(b), Join(c), Join(d));
  }

  lemma Regroup4(a: string, b: string, c: string, d: string)
    ensures a + (b + (c + d)) == a + b + c + d
  {
  }

  function BodyLexemes(parent: string, tmp: string, dest: string, size: nat, base64: bool): seq<Lexeme> {
    MkdirLexemes(parent) + (CatLexemes(tmp) + (SizeTestLexemes(tmp, size) + FinishLexemes(tmp, dest, base64)))
  }

  lemma BodySpelling(parent: string, tmp: string, dest: string, size: nat, base64: bool)
    ensures Join(BodyLexemes(parent, tmp, dest, size, base64))
         == MkdirText(parent) + CatText(tmp) + SizeTestText(tmp, size) + FinishText(tmp, dest, base64)
  {
    var finish := FinishLexemes(tmp, dest, base64);
    JoinFour(MkdirLexemes(parent), CatLexemes(tmp), SizeTestLexemes(tmp, size), finish);
    MkdirSpelling(parent);
    CatSpelling(tmp);
    SizeTestSpelling(tmp, size);
    if base64 {
      DecodeSpelling(tmp, dest);
    } else {
      MoveSpelling(tmp, dest);
    }
  }

  lemma BodyContinues(parent: string, tmp: string, dest: string, size: nat, base64: bool)
    ensures Continues(BodyLexemes(parent, tmp, dest, size, base64), true)
  {
    var finish := FinishLexemes(tmp, dest, base64);
    var tested := SizeTestLexemes(tmp, size) + finish;
    if base64 {
      DecodeContinues(tmp, dest);
    } else {
      MoveContinues(tmp, dest);
    }
    SizeTestContinues(tmp, size);
    ContinuesAppend(SizeTestLexemes(tmp, size), finish, true);
    CatFragment(tmp);
    ContinuesAppend(CatLexemes(tmp), tested, true);
    MkdirContinues(parent);
    ContinuesAppend(MkdirLexemes(parent), CatLexemes(tmp) + tested, true);
  }

  lemma BodyTokens(parent: string, tmp: string, dest: string, size: nat, base64: bool)
    ensures TokensOf(BodyLexemes(parent, tmp, dest, size, base64))
         == Print(WriteCmd(parent, tmp, dest, size, base64).left)
  {
    var finish := FinishLexemes(tmp, dest, base64);
    var tested := SizeTestLexemes(tmp, size) + finish;
    TokensAppend(SizeTestLexemes(tmp, size), finish);
    TokensAppend(CatLexemes(tmp), tested);
    TokensAppend(MkdirLexemes(parent), CatLexemes(tmp) + tested);
    MkdirFragment(parent);
    CatFragment(tmp);
    SizeTestFragment(tmp, size);
    var mkdir := MkdirCmd(parent);
    if base64 {
      DecodeFragment(tmp, dest);
      ChainUndo(mkdir, CatCmd(tmp), SizeTestCmd(tmp, size), DecodeCmd(tmp, dest), UndoCmd(dest));
    } else {
      MoveFragment(tmp, dest);
      ChainTokens(mkdir, CatCmd(tmp), SizeTestCmd(tmp, size), MoveCmd(tmp, dest));
    }
  }

  lemma WritePrintable(parent: string, tmp: string, dest: string, size: nat, base64: bool)
    ensures PrintableList(WriteCmd(parent, tmp, dest, size, base64))
  {
    UploadPrintable(parent, tmp);
    SizeTestPrintable(tmp, size);
    FinishPrintable(tmp, dest);
    UndoPrintable(dest);
    var mkdir, cat, test := MkdirCmd(parent), CatCmd(tmp), SizeTestCmd(tmp, size);
    ChainPrintable(mkdir, cat, test, if base64 then DecodeCmd(tmp, dest) else MoveCmd(tmp, dest));
    OrPrintable(And(And(And(mkdir, cat), test), DecodeCmd(tmp, dest)), UndoCmd(dest), base64);
    WholePrintable(WriteCmd(parent, tmp, dest, size, base64).left, tmp);
  }

  lemma OrPrintable(a: Cmd, b: Cmd, needed: bool)
    requires needed ==> PrintableAndOr(a) && PrintableCommand(b)
    ensures needed ==> PrintableAndOr(Or(a, b))
  {
  }

  lemma UndoElaborates(dest: string)
    ensures Elaborate(UndoCmd(dest)) == Some(M.Group(M.Seq(M.RmF(dest), M.False)))
  {
    ElaborateRemove(dest);
    ElaborateFalse();
    SeqElaborates(UndoCmd(dest).body.left, UndoCmd(dest).body.right, M.RmF(dest), M.False);
  }

  lemma WriteElaborates(parent: string, tmp: string, dest: string, size: nat, base64: bool)
    ensures Elaborate(WriteCmd(parent, tmp, dest, size, base64)) == Some(WriteProg(parent, tmp, dest, size, base64))
  {
    var c := WriteCmd(parent, tmp, dest, size, base64);
    var p := WriteProg(parent, tmp, dest, size, base64);
    var mkdir := MkdirCmd(parent);
    ElaborateMkdir(parent);
    ElaborateCat(tmp);
    ElaborateSizeTest(tmp, size);
    ElaborateCleanup(tmp);
    if base64 {
      ElaborateDecode(tmp, dest);
      ChainElaborates(mkdir, CatCmd(tmp), SizeTestCmd(tmp, size), DecodeCmd(tmp, dest),
                      M.MkdirP(parent), M.CatTo(tmp), M.SizeIs(tmp, size), M.Base64To(tmp, dest));
      UndoElaborates(dest);
      SeqElaborates(c.left.left, c.left.right, p.left.left, p.left.right);
    } else {
      ElaborateMove(tmp, dest);
      ChainElaborates(mkdir, CatCmd(tmp), SizeTestCmd(tmp, size), MoveCmd(tmp, dest),
                      M.MkdirP(parent), M.CatTo(tmp), M.SizeIs(tmp, size), M.Mv(tmp, dest));
    }
    SeqElaborates(c.left, c.right, p.left, p.right);
  }

  /** A body and the cleanup after it. */
  lemma ParseScript(bodyText: string, body: seq<Lexeme>, c: Cmd, tmp: string)
    requires Join(body) == bodyText && Continues(body, true) && TokensOf(body) == Print(c)
    requires PrintableList(Seq(c, CleanupCmd(tmp)))
    ensures Parse(bodyText + CleanupText(tmp)) == Some(Seq(c, CleanupCmd(tmp)))
  {
    var cleanup := CleanupLexemes(tmp);
    JoinAppend(body, cleanup);
    CleanupSpelling(tmp);
    CleanupSpelled(tmp);
    CleanupFragment(tmp);
    WellSpelledAppend(body, cleanup);
    TokensAppend(body, cleanup);
    assert Print(Seq(c, CleanupCmd(tmp))) == Print(c) + ([Op(";")] + Print(CleanupCmd(tmp)));
    ParseText(bodyText + CleanupText(tmp), body + cleanup, Seq(c, CleanupCmd(tmp)));
  }

  /** `write_file`'s script is read as intended, with every path one word equal to the original. */
  lemma WriteTextMeans(parent: string, tmp: string, dest: string, size: nat, base64: bool)
    ensures Meaning(WriteText(parent, tmp, dest, size, base64)) == Some(WriteProg(parent, tmp, dest, size, base64))
  {
    var text := MkdirText(parent) + CatText(tmp) + SizeTestText(tmp, size) + FinishText(tmp, dest, base64);
    BodySpelling(parent, tmp, dest, size, base64);
    BodyContinues(parent, tmp, dest, size, base64);
    BodyTokens(parent, tmp, dest, size, base64);
    WritePrintable(parent, tmp, dest, size, base64);
    ParseScript(text, BodyLexemes(parent, tmp, dest, size, base64), WriteCmd(parent, tmp, dest, size, base64).left, tmp);
    WriteElaborates(parent, tmp, dest, size, base64);
  }

  function UploadedLexemes(script: string, size: nat, seconds: nat, interpreter: string): seq<Lexeme> {
    CatLexemes(script) + (SizeTestLexemes(script, size) + StartLexemes(WORKDIR, script, seconds, interpreter))
  }

  lemma UploadedSpelling(script: string, size: nat, seconds: nat, interpreter: string)
    ensures Join(UploadedLexemes(script, size, seconds, interpreter))
         == CatText(script) + SizeTestText(script, size) + StartText(WORKDIR, script, seconds, interpreter)
  {
    var start := StartLexemes(WORKDIR, script, seconds, interpreter);
    var test := SizeTestLexemes(script, size);
    JoinAppend(test, start);
    JoinAppend(CatLexemes(script), test + start);
    CatSpelling(script);
    SizeTestSpelling(script, size);
    StartSpelling(WORKDIR, script, seconds, interpreter);
  }

  lemma UploadedContinues(script: string, size: nat, seconds: nat, interpreter: string)
    ensures Continues(UploadedLexemes(script, size, seconds, interpreter), true)
  {
    var start := StartLexemes(WORKDIR, script, seconds, interpreter);
    var test := SizeTestLexemes(script, size);
    StartContinues(WORKDIR, script, seconds, interpreter);
    SizeTestContinues(script, size);
    ContinuesAppend(test, start, true);
    CatFragment(script);
    ContinuesAppend(CatLexemes(script), test + start, true);
  }

  lemma UploadedTokens(script: string, size: nat, seconds: nat, interpreter: string)
    ensures TokensOf(UploadedLexemes(script, size, seconds, interpreter))
         == Print(RunCmd(script, size, seconds, interpreter).left)
  {
    var start := StartLexemes(WORKDIR, script, seconds, interpreter);
    var test := SizeTestLexemes(script, size);
    TokensAppend(test, start);
    TokensAppend(CatLexemes(script), test + start);
    CatFragment(script);
    SizeTestFragment(script, size);
    StartFragment(WORKDIR, script, seconds, interpreter);
    ChainTokens(CatCmd(script), SizeTestCmd(script, size), CdCmd(WORKDIR),
             StartCmd(script, seconds, interpreter));
  }

  lemma RunPrintable(script: string, size: nat, seconds: nat, interpreter: string)
    ensures PrintableList(RunCmd(script, size, seconds, interpreter))
  {
    UploadPrintable(WORKDIR, script);
    SizeTestPrintable(script, size);
    CdPrintable(WORKDIR);
    StartPrintable(script, seconds, interpreter);
    ChainPrintable(CatCmd(script), SizeTestCmd(script, size), CdCmd(WORKDIR), StartCmd(script, seconds, interpreter));
    WholePrintable(RunCmd(script, size, seconds, interpreter).left, script);
  }

  lemma RunElaborates(script: string, size: nat, seconds: nat, interpreter: string)
    ensures Elaborate(RunCmd(script, size, seconds, interpreter)) == Some(RunProg(script, size, seconds, interpreter))
  {
    var c, p := RunCmd(script, size, seconds, interpreter), RunProg(script, size, seconds, interpreter);
    ElaborateCat(script);
    ElaborateSizeTest(script, size);
    ElaborateCd(WORKDIR);
    ElaborateStart(script, seconds, interpreter);
    ChainElaborates(CatCmd(script), SizeTestCmd(script, size), CdCmd(WORKDIR),
                    StartCmd(script, seconds, interpreter), M.CatTo(script), M.SizeIs(script, size), M.Cd(WORKDIR),
                    M.Interpret(seconds, interpreter, script));
    ElaborateCleanup(script);
    SeqElaborates(c.left, c.right, p.left, p.right);
  }

  /** `run_script`'s script is read as intended. */
  lemma RunTextMeans(script: string, size: nat, seconds: nat, interpreter: string)
    ensures Meaning(RunText(script, size, seconds, interpreter)) == Some(RunProg(script, size, seconds, interpreter))
  {
    var text := CatText(script) + SizeTestText(script, size) + StartText(WORKDIR, script, seconds, interpreter);
    UploadedSpelling(script, size, seconds, interpreter);
    UploadedContinues(script, size, seconds, interpreter);
    UploadedTokens(script, size, seconds, interpreter);
    RunPrintable(script, size, seconds, interpreter);
    ParseScript(text, UploadedLexemes(script, size, seconds, interpreter), RunCmd(script, size, seconds, interpreter).left,
                script);
    RunElaborates(script, size, seconds, interpreter);
  }

  lemma ReadSpelled(count: nat, path: string)
    ensures WellSpelled(ReadLexemes(count, path))
  {
    DecPlain(count);
  }

  lemma ReadFragment(count: nat, path: string)
    ensures TokensOf(ReadLexemes(count, path)) == Print(ReadCmd(count, path))
    ensures PrintableList(ReadCmd(count, path))
  {
    PrintRun(ReadCmd(count, path).words);
    ListPrintable(ReadCmd(count, path), "head");
  }

  /** `read_file`'s command is read as intended. */
  lemma ReadTextMeans(count: nat, path: string)
    ensures Meaning(ReadText(count, path)) == Some(M.Head(count, path))
  {
    ReadSpelling(count, path);
    ReadSpelled(count, path);
    ReadFragment(count, path);
    ParseText(ReadText(count, path), ReadLexemes(count, path), ReadCmd(count, path));
    ElaborateHead(count, path);
  }

  /** `exec` puts a directory change in front of the caller's command: whatever that command is, it
      is tokenized as it would be alone, after exactly `cd <workdir> &&`. */
  lemma ExecTextMeans(workdir: string, command: string)
    ensures Tokens("cd " + Quote(workdir) + " && " + command, false)
         == Prepend([Plain("cd"), PathWord(workdir), AND_IF], Tokens(command, false))
  {
    ExecSplit(Quote(workdir), command);
    LexGuard(workdir, command);
    LexSpaced("cd", Quote(workdir) + (" " + ("&&" + (" " + command))), false);
    PrependTwice([Plain("cd")], [PathWord(workdir), AND_IF], Tokens(command, false));
    assert [Plain("cd")] + [PathWord(workdir), AND_IF] == [Plain("cd"), PathWord(workdir), AND_IF];
  }

  lemma LexGuard(workdir: string, command: string)
    ensures Tokens(Quote(workdir) + (" " + ("&&" + (" " + command))), false)
         == Prepend([PathWord(workdir), AND_IF], Tokens(command, false))
  {
    var t := "&&" + (" " + command);
    LexBlank(command, false);
    LexOperator("&&", " " + command, false);
    LexPath(workdir, " " + t, false);
    LexBlank(t, false);
    PrependTwice([PathWord(workdir)], [AND_IF], Tokens(command, false));
    assert [PathWord(workdir)] + [AND_IF] == [PathWord(workdir), AND_IF];
  }

  // ----- What the directory change of `exec` guards -----

  /** `c` with `first &&` put in front of its first command, the way the grammar reads such a text. */
  function Prefixed(first: Cmd, c: Cmd): Cmd {
    match c
    case Seq(l, r) => Seq(Prefixed(first, l), r)
    case And(l, r) => And(Prefixed(first, l), r)
    case Or(l, r) => Or(Prefixed(first, l), r)
    case _ => And(first, c)
  }

  function PrefixedResult(first: Cmd, r: Option<(Cmd, seq<Token>)>): Option<(Cmd, seq<Token>)> {
    match r
    case None => None
    case Some((c, rest)) => Some((Prefixed(first, c), rest))
  }

  lemma CommandShape(ts: seq<Token>)
    ensures CommandAt(ts).Some? ==> CommandAt(ts).value.0.Simple? || CommandAt(ts).value.0.Group?
  {
    SimpleShape(ts, [], []);
  }

  lemma {:induction false} SimpleShape(ts: seq<Token>, words: seq<Token>, redirects: seq<Redirect>)
    ensures SimpleAt(ts, words, redirects).Some? ==> SimpleAt(ts, words, redirects).value.0.Simple?
    decreases |ts|
  {
    if ts != [] && ts[0].Word? {
      SimpleShape(ts[1..], words + [ts[0]], redirects);
    } else if |ts| >= 2 && IsRedirectOp(ts[0]) && ts[1].Word? {
      SimpleShape(ts[2..], words, redirects + [Redirect(ts[0].op, ts[1])]);
    }
  }

  lemma {:induction false} PrefixedAndOr(first: Cmd, acc: Cmd, ts: seq<Token>)
    ensures AndOrFrom(Prefixed(first, acc), ts) == PrefixedResult(first, AndOrFrom(acc, ts))
    decreases |ts|
  {
    if ts != [] && (ts[0] == Op("&&") || ts[0] == Op("||")) && CommandAt(ts[1..]).Some? {
      var (c, rest) := CommandAt(ts[1..]).value;
      PrefixedAndOr(first, if ts[0] == Op("&&") then And(acc, c) else Or(acc, c), rest);
    }
  }

  lemma PrefixedFirst(first: Cmd, ts: seq<Token>)
    requires PrintableCommand(first)
    ensures AndOrAt(Print(first) + ([AND_IF] + ts)) == PrefixedResult(first, AndOrAt(ts))
  {
    var tail := [AND_IF] + ts;
    ParseCommand(first, tail);
    assert tail[1..] == ts;
    CommandShape(ts);
    if CommandAt(ts).Some? {
      var (c, rest) := CommandAt(ts).value;
      PrefixedAndOr(first, c, rest);
    }
  }

  lemma PrefixedList(first: Cmd, ts: seq<Token>)
    requires PrintableCommand(first)
    ensures ListAt(Print(first) + ([AND_IF] + ts)) == PrefixedResult(first, ListAt(ts))
  {
    PrefixedFirst(first, ts);
  }

  /** `exec` for any command text: it is read exactly when the caller's command is, and as that command
      with the directory change in front of its first simple command or group. */
  lemma ExecParses(workdir: string, command: string)
    ensures Parse("cd " + Quote(workdir) + " && " + command)
         == match Parse(command)
            case None => None
            case Some(c) => Some(Prefixed(CdCmd(workdir), c))
  {
    ExecTextMeans(workdir, command);
    if Tokens(command, false).Some? {
      ExecTree(workdir, Tokens(command, false).value.0);
    }
  }

  lemma ExecTree(workdir: string, ts: seq<Token>)
    ensures ListAt([Plain("cd"), PathWord(workdir), AND_IF] + ts) == PrefixedResult(CdCmd(workdir), ListAt(ts))
  {
    var cd := CdCmd(workdir);
    CdPrintable(workdir);
    PrintRun([Plain("cd"), PathWord(workdir)]);
    assert [Plain("cd"), PathWord(workdir), AND_IF] + ts == Print(cd) + ([AND_IF] + ts);
    PrefixedList(cd, ts);
  }

  /** `workdir or WORKDIR`. */
  function WorkdirOf(workdir: Option<string>): string {
    if workdir.Some? && workdir.value != "" then workdir.value else WORKDIR
  }

  /** What `exec` runs in the session. */
  function ExecText(workdir: Option<string>, command: string): string {
    "cd " + Quote(WorkdirOf(workdir)) + " && " + command
  }

  function ExecArgv(workdir: Option<string>, command: string, timeoutSeconds: int): seq<string> {
    ["timeout", "-k", "1", Dec(Max(1, timeoutSeconds)), "sh", "-c", ExecText(workdir, command)]
  }

  lemma ExecTextParses(workdir: Option<string>, command: string, dir: string)
    requires dir == if workdir == None || workdir == Some("") then "/workspace" else workdir.value
    ensures Parse(ExecText(workdir, command)) == match Parse(command)
                                                 case None => None
                                                 case Some(c) => Some(Prefixed(CdCmd(dir), c))
  {
    ExecParses(dir, command);
  }

  /** The time limit is the caller's, but at least a second, and the shell gets the caller's command in the
      directory asked for, or in the working directory. */
  lemma ExecArgvMeans(workdir: Option<string>, command: string, timeoutSeconds: int, dir: string)
    requires dir == if workdir == None || workdir == Some("") then "/workspace" else workdir.value
    ensures exists limit: string, text: string ::
              ExecArgv(workdir, command, timeoutSeconds) == ["timeout", "-k", "1", limit, "sh", "-c", text]
              && ParseNat(limit) == Some(if timeoutSeconds < 1 then 1 else timeoutSeconds)
              && Parse(text) == match Parse(command)
                                case None => None
                                case Some(c) => Some(Prefixed(CdCmd(dir), c))
  {
    var limit, text := Dec(Max(1, timeoutSeconds)), ExecText(workdir, command);
    ParseDec(Max(1, timeoutSeconds));
    ExecTextParses(workdir, command, dir);
    assert ExecArgv(workdir, command, timeoutSeconds) == ["timeout", "-k", "1", limit, "sh", "-c", text];
  }

  /** How a simple command or a group ends. */
  datatype Verdict = Succeeds | Fails | Exits

  /** The commands and groups of a list that are run, in order, and how the last one ended. */
  function Ran(c: Cmd, ends: Cmd -> Verdict): (seq<Cmd>, Verdict) {
    match c
    case And(l, r) => var (done, v) := Ran(l, ends); if v == Succeeds then Onward(done, Ran(r, ends)) else (done, v)
    case Or(l, r) => var (done, v) := Ran(l, ends); if v == Fails then Onward(done, Ran(r, ends)) else (done, v)
    case Seq(l, r) => var (done, v) := Ran(l, ends); if v != Exits then Onward(done, Ran(r, ends)) else (done, v)
    case _ => ([c], ends(c))
  }

  function Onward(done: seq<Cmd>, more: (seq<Cmd>, Verdict)): (seq<Cmd>, Verdict) {
    (done + more.0, more.1)
  }

  /** A single chain of `&&`. */
  predicate OnlyAnd(c: Cmd) {
    match c
    case And(l, _) => OnlyAnd(l)
    case Or(_, _) => false
    case Seq(_, _) => false
    case _ => true
  }

  lemma {:induction false} RunsSomething(c: Cmd, ends: Cmd -> Verdict)
    ensures Ran(c, ends).0 != []
  {
    if c.And? || c.Or? || c.Seq? {
      RunsSomething(c.left, ends);
    }
  }

  /** In the workdir nothing changes: the command does what it would do alone. */
  lemma {:induction false} PrefixSucceeds(cd: Cmd, c: Cmd, ends: Cmd -> Verdict)
    requires cd.Simple? && ends(cd) == Succeeds
    ensures Ran(Prefixed(cd, c), ends) == Onward([cd], Ran(c, ends))
  {
    if c.And? || c.Or? || c.Seq? {
      PrefixSucceeds(cd, c.left, ends);
      assert [cd] + (Ran(c.left, ends).0 + Ran(c.right, ends).0) == [cd] + Ran(c.left, ends).0 + Ran(c.right, ends).0;
    } else {
      assert Ran(c, ends) == ([c], ends(c));
    }
  }

  /** If the workdir cannot be entered, nothing of the command runs exactly when it is one `&&` chain:
      what follows its first `||` or `;` does run, in the wrong directory. */
  lemma {:induction false} PrefixFails(cd: Cmd, c: Cmd, ends: Cmd -> Verdict)
    requires cd.Simple? && ends(cd) == Fails
    ensures Ran(Prefixed(cd, c), ends).0 == [cd] <==> OnlyAnd(c)
    ensures OnlyAnd(c) ==> Ran(Prefixed(cd, c), ends).1 == Fails
    ensures [cd] <= Ran(Prefixed(cd, c), ends).0
  {
    if c.And? || c.Or? || c.Seq? {
      PrefixFails(cd, c.left, ends);
      RunsSomething(c.right, ends);
      MoreThan(Ran(Prefixed(cd, c.left), ends).0, Ran(c.right, ends).0, cd);
    } else {
      assert Ran(cd, ends) == ([cd], Fails);
    }
  }

  lemma MoreThan<T>(done: seq<T>, more: seq<T>, x: T)
    requires [x] <= done && more != []
    ensures [x] <= done + more && done + more != [x]
  {
    assert |done + more| >= 2;
  }

  lemma ExecSplit(q: string, command: string)
    ensures "cd " + q + " && " + command == "cd" + (" " + (q + (" " + ("&&" + (" " + command)))))
  {
    assert "cd " == "cd" + " " && " && " == " " + ("&&" + " ");
  }

  lemma PrependTwice(a: seq<Token>, b: seq<Token>, r: Option<(seq<Token>, string)>)
    ensures Prepend(a, Prepend(b, r)) == Prepend(a + b, r)
  {
    if r.Some? {
      assert a + (b + r.value.0) == (a + b) + r.value.0;
    }
  }
}
