/**
 * The text form of the path (lib/freetype/api.rb:263-265): each command is its letter
 * followed by its integer arguments in decimal, separated by single spaces, and the
 * commands are concatenated with nothing between them, as in "M0 0L10 0z".
 * ParsePath reads such a text back; the round trip shows the text loses nothing.
 */
module SvgSyntax {
  import opened PathBuilder
  import opened Wrappers

  // ---------------------------------------------------------------------------------------
  // Writing

  function Letter(cmd: Command): char {
    match cmd
    case Move(_, _) => 'M'
    case Line(_, _) => 'L'
    case Quad(_, _, _, _) => 'Q'
    case Close => 'z'
  }

  /** The arguments after the letter, in the order the source stores them. */
  function Args(cmd: Command): seq<int> {
    match cmd
    case Move(x, y) => [x, y]
    case Line(x, y) => [x, y]
    case Quad(cx, cy, x, y) => [cx, cy, x, y]
    case Close => []
  }

  predicate IsDigit(ch: char) {
    '0' <= ch <= '9'
  }

  function DigitChar(d: nat): (ch: char)
    requires d < 10
    ensures IsDigit(ch)
  {
    ('0' as int + d) as char
  }

  /** The value of a digit character. */
  function DigitValue(ch: char): int {
    ch as int - '0' as int
  }

  /** Ruby's `Integer#to_s` for n >= 0: decimal digits, no leading zero. */
  function NatToString(n: nat): (s: string)
    ensures |s| > 0 && IsDigit(s[0])
    ensures |s| > 1 ==> s[0] != '0'
  {
    if n < 10 then [DigitChar(n)] else NatToString(n / 10) + [DigitChar(n % 10)]
  }

  /** Ruby's `Integer#to_s`: a minus sign before the digits of a negative number. */
  function IntToString(i: int): (s: string)
    ensures |s| > 0
    ensures s[0] == '-' <==> i < 0
  {
    if i < 0 then "-" + NatToString(-i) else NatToString(i)
  }

  /** `to_s` of each argument. */
  function IntStrings(args: seq<int>): seq<string> {
    seq(|args|, i requires 0 <= i < |args| => IntToString(args[i]))
  }

  /** `Array#join(' ')` on strings. */
  function Join(fs: seq<string>): string {
    if fs == [] then "" else if |fs| == 1 then fs[0] else fs[0] + " " + Join(fs[1..])
  }

  /** `args.join(' ')`. */
  function JoinArgs(args: seq<int>): string {
    Join(IntStrings(args))
  }

  /** `"#{command}#{args.join(' ')}"`. */
  function Token(cmd: Command): (s: string)
    ensures |s| > 0 && s[0] == Letter(cmd)
  {
    [Letter(cmd)] + JoinArgs(Args(cmd))
  }

  /** `.join('')` over the tokens. */
  function Serialize(cmds: seq<Command>): (s: string)
    ensures |s| >= |cmds|
    ensures s == [] <==> cmds == []
  {
    if cmds == [] then "" else Token(cmds[0]) + Serialize(cmds[1..])
  }

  // ---------------------------------------------------------------------------------------
  // Reading

  /** The characters that may follow a command letter: digits, minus signs and spaces. */
  predicate ArgChar(ch: char) {
    IsDigit(ch) || ch == '-' || ch == ' '
  }

  predicate AllDigits(s: string) {
    forall k :: 0 <= k < |s| ==> IsDigit(s[k])
  }

  predicate AllArgChars(s: string) {
    forall k :: 0 <= k < |s| ==> ArgChar(s[k])
  }

  predicate NoSpace(s: string) {
    forall k :: 0 <= k < |s| ==> s[k] != ' '
  }

  /** The number a digit string denotes. */
  function Val(ds: string): int {
    if ds == [] then 0 else Val(ds[..|ds| - 1]) * 10 + DigitValue(ds[|ds| - 1])
  }

  /** The integer a whole field denotes: digits, possibly after one minus sign. */
  function ParseInt(f: string): Option<int> {
    if |f| > 1 && f[0] == '-' && AllDigits(f[1..]) then Some(-Val(f[1..]))
    else if |f| > 0 && AllDigits(f) then Some(Val(f))
    else None
  }

  /** The pieces of s between single spaces. */
  function Fields(s: string): (fs: seq<string>)
    ensures |fs| > 0
  {
    if s == [] then [""]
    else
      var rest := Fields(s[1..]);
      if s[0] == ' ' then [""] + rest else [[s[0]] + rest[0]] + rest[1..]
  }

  /** The integers of all fields, or None when one of them is not an integer. */
  function ParseInts(fs: seq<string>): (r: Option<seq<int>>)
    ensures r.Some? ==> |r.value| == |fs|
  {
    if fs == [] then Some([])
    else
      match ParseInt(fs[0])
      case None => None
      case Some(v) =>
        match ParseInts(fs[1..])
        case None => None
        case Some(vs) => Some([v] + vs)
  }

  /** n space-separated integers making up all of text. */
  function ParseArgs(text: string, n: nat): Option<seq<int>> {
    if n == 0 then (if text == [] then Some([]) else None)
    else
      var fs := Fields(text);
      if |fs| == n then ParseInts(fs) else None
  }

  /** The length of the longest run of argument characters at the front of s. */
  function ArgSpan(s: string): (r: nat)
    ensures r <= |s|
  {
    if s == [] || !ArgChar(s[0]) then 0 else 1 + ArgSpan(s[1..])
  }

  function Arity(letter: char): nat {
    if letter == 'Q' then 4 else if letter == 'z' then 0 else 2
  }

  /** The command a letter and its arguments stand for. */
  function MakeCommand(letter: char, a: seq<int>): Option<Command> {
    if letter == 'M' && |a| == 2 then Some(Move(a[0], a[1]))
    else if letter == 'L' && |a| == 2 then Some(Line(a[0], a[1]))
    else if letter == 'Q' && |a| == 4 then Some(Quad(a[0], a[1], a[2], a[3]))
    else if letter == 'z' && |a| == 0 then Some(Close)
    else None
  }

  /** One command at the front of s, and how many characters it takes. */
  function ParseToken(s: string): (r: Option<(Command, nat)>)
    ensures r.Some? ==> 0 < r.value.1 <= |s|
  {
    if s == [] then None
    else
      var k := ArgSpan(s[1..]);
      match ParseArgs(s[1..1 + k], Arity(s[0]))
      case None => None
      case Some(a) =>
        match MakeCommand(s[0], a)
        case None => None
        case Some(cmd) => Some((cmd, 1 + k))
  }

  /** The commands of a path text, or None when it is not one. */
  function ParsePath(s: string): Option<seq<Command>>
    decreases |s|
  {
    if s == [] then Some([])
    else
      match ParseToken(s)
      case None => None
      case Some((cmd, k)) =>
        match ParsePath(s[k..])
        case None => None
        case Some(rest) => Some([cmd] + rest)
  }

  // ---------------------------------------------------------------------------------------
  // The round trip

  lemma {:induction false} NatToStringDigits(n: nat)
    ensures AllDigits(NatToString(n))
    decreases n
  {
    if n >= 10 {
      NatToStringDigits(n / 10);
    }
  }

  lemma {:induction false} ValOfNatToString(n: nat)
    ensures Val(NatToString(n)) == n
    decreases n
  {
    if n >= 10 {
      ValOfNatToString(n / 10);
      var s := NatToString(n);
      assert s[..|s| - 1] == NatToString(n / 10);
    }
  }

  /** Each argument's text reads back as the argument. */
  lemma ParseIntOfIntToString(i: int)
    ensures ParseInt(IntToString(i)) == Some(i)
  {
    if i < 0 {
      var ds := NatToString(-i);
      NatToStringDigits(-i);
      ValOfNatToString(-i);
      assert IntToString(i)[1..] == ds;
    } else {
      NatToStringDigits(i);
      ValOfNatToString(i);
    }
  }

  /** An argument's text holds no space, only digits and a leading minus sign. */
  lemma IntToStringChars(i: int)
    ensures NoSpace(IntToString(i)) && AllArgChars(IntToString(i))
  {
    NatToStringDigits(if i < 0 then -i else i);
  }

  lemma {:induction false} ParseIntsOfIntStrings(args: seq<int>)
    ensures ParseInts(IntStrings(args)) == Some(args)
    decreases |args|
  {
    if args != [] {
      ParseIntOfIntToString(args[0]);
      assert IntStrings(args)[1..] == IntStrings(args[1..]);
      ParseIntsOfIntStrings(args[1..]);
      assert [args[0]] + args[1..] == args;
    }
  }

  /** A field without spaces, then a space: the field comes off whole. */
  lemma {:induction false} FieldsOfWord(f: string, rest: string)
    requires NoSpace(f)
    ensures Fields(f + " " + rest) == [f] + Fields(rest)
    decreases |f|
  {
    var s := f + " " + rest;
    if f == [] {
      assert s == " " + rest;
      assert s[1..] == rest;
    } else {
      assert s[1..] == f[1..] + " " + rest;
      FieldsOfWord(f[1..], rest);
      assert [f[0]] + f[1..] == f;
    }
  }

  lemma {:induction false} FieldsOfLastWord(f: string)
    requires NoSpace(f)
    ensures Fields(f) == [f]
    decreases |f|
  {
    if f != [] {
      FieldsOfLastWord(f[1..]);
      assert [f[0]] + f[1..] == f;
    }
  }

  /** Splitting a join of space-free fields on spaces gives the fields back. */
  lemma {:induction false} FieldsOfJoin(fs: seq<string>)
    requires |fs| > 0
    requires forall i :: 0 <= i < |fs| ==> NoSpace(fs[i])
    ensures Fields(Join(fs)) == fs
    decreases |fs|
  {
    if |fs| == 1 {
      FieldsOfLastWord(fs[0]);
    } else {
      FieldsOfWord(fs[0], Join(fs[1..]));
      FieldsOfJoin(fs[1..]);
      assert [fs[0]] + fs[1..] == fs;
    }
  }

  lemma ParseArgsOfJoinArgs(args: seq<int>)
    ensures ParseArgs(JoinArgs(args), |args|) == Some(args)
  {
    if args != [] {
      var fs := IntStrings(args);
      forall i | 0 <= i < |fs|
        ensures NoSpace(fs[i])
      {
        IntToStringChars(args[i]);
      }
      FieldsOfJoin(fs);
      ParseIntsOfIntStrings(args);
    }
  }

  lemma {:induction false} JoinArgChars(fs: seq<string>)
    requires forall i :: 0 <= i < |fs| ==> AllArgChars(fs[i])
    ensures AllArgChars(Join(fs))
    decreases |fs|
  {
    if |fs| > 1 {
      JoinArgChars(fs[1..]);
    }
  }

  lemma JoinArgsChars(args: seq<int>)
    ensures AllArgChars(JoinArgs(args))
  {
    var fs := IntStrings(args);
    forall i | 0 <= i < |fs|
      ensures AllArgChars(fs[i])
    {
      IntToStringChars(args[i]);
    }
    JoinArgChars(fs);
  }

  /** What may follow the arguments of a command: the end of the text or another letter. */
  predicate EndsArgs(t: string) {
    t == [] || !ArgChar(t[0])
  }

  lemma {:induction false} ArgSpanOf(text: string, t: string)
    requires AllArgChars(text) && EndsArgs(t)
    ensures ArgSpan(text + t) == |text|
    decreases |text|
  {
    if text == [] {
      assert text + t == t;
    } else {
      assert (text + t)[1..] == text[1..] + t;
      ArgSpanOf(text[1..], t);
    }
  }

  lemma MakeCommandOf(cmd: Command)
    ensures Arity(Letter(cmd)) == |Args(cmd)|
    ensures MakeCommand(Letter(cmd), Args(cmd)) == Some(cmd)
  {
  }

  lemma ParseTokenOfToken(cmd: Command, t: string)
    requires EndsArgs(t)
    ensures ParseToken(Token(cmd) + t) == Some((cmd, |Token(cmd)|))
  {
    var text := JoinArgs(Args(cmd));
    var s := Token(cmd) + t;
    assert s[1..] == text + t;
    JoinArgsChars(Args(cmd));
    ArgSpanOf(text, t);
    assert s[1..1 + |text|] == text;
    ParseArgsOfJoinArgs(Args(cmd));
    MakeCommandOf(cmd);
  }

  /** A serialized path is empty or begins with the first command's letter. */
  lemma SerializeStart(cmds: seq<Command>)
    ensures |Serialize(cmds)| > 0 <==> cmds != []
    ensures cmds != [] ==> Serialize(cmds)[0] == Letter(cmds[0])
  {
  }

  /** The text of a command list is the texts of its parts, one after the other. */
  lemma {:induction false} SerializeAppend(a: seq<Command>, b: seq<Command>)
    ensures Serialize(a + b) == Serialize(a) + Serialize(b)
    decreases |a|
  {
    if a == [] {
      assert a + b == b;
    } else {
      assert (a + b)[0] == a[0];
      assert (a + b)[1..] == a[1..] + b;
      SerializeAppend(a[1..], b);
    }
  }

  /** Round trip: reading the text of any command list gives the command list back. */
  lemma {:induction false} ParseSerialize(cmds: seq<Command>)
    ensures ParsePath(Serialize(cmds)) == Some(cmds)
    decreases |cmds|
  {
    if cmds != [] {
      var rest := Serialize(cmds[1..]);
      SerializeStart(cmds[1..]);
      ParseTokenOfToken(cmds[0], rest);
      var s := Serialize(cmds);
      assert s[|Token(cmds[0])|..] == rest;
      ParseSerialize(cmds[1..]);
      assert [cmds[0]] + cmds[1..] == cmds;
    }
  }

  /** Hence different command lists never give the same text. */
  lemma SerializeInjective(a: seq<Command>, b: seq<Command>)
    requires Serialize(a) == Serialize(b)
    ensures a == b
  {
    ParseSerialize(a);
    ParseSerialize(b);
  }

  // ---------------------------------------------------------------------------------------
  // Which characters occur

  /** The number of times ch occurs in s. */
  function Occurrences(s: string, ch: char): nat {
    if s == [] then 0 else (if s[0] == ch then 1 else 0) + Occurrences(s[1..], ch)
  }

  lemma {:induction false} OccurrencesAppend(a: string, b: string, ch: char)
    ensures Occurrences(a + b, ch) == Occurrences(a, ch) + Occurrences(b, ch)
    decreases |a|
  {
    if a != [] {
      assert (a + b)[1..] == a[1..] + b;
      OccurrencesAppend(a[1..], b, ch);
    } else {
      assert a + b == b;
    }
  }

  lemma {:induction false} NoOccurrences(s: string, ch: char)
    requires AllArgChars(s) && !ArgChar(ch)
    ensures Occurrences(s, ch) == 0
    decreases |s|
  {
    if s != [] {
      NoOccurrences(s[1..], ch);
    }
  }

  /** A command letter occurs in a token only as its first character. */
  lemma TokenLetters(cmd: Command, ch: char)
    requires !ArgChar(ch)
    ensures Occurrences(Token(cmd), ch) == if ch == Letter(cmd) then 1 else 0
  {
    JoinArgsChars(Args(cmd));
    NoOccurrences(JoinArgs(Args(cmd)), ch);
    OccurrencesAppend([Letter(cmd)], JoinArgs(Args(cmd)), ch);
  }

  /** The number of commands in cmds whose letter is ch. */
  function CountLetter(cmds: seq<Command>, ch: char): nat {
    if cmds == [] then 0 else (if Letter(cmds[0]) == ch then 1 else 0) + CountLetter(cmds[1..], ch)
  }

  lemma {:induction false} CountLetterAppend(a: seq<Command>, b: seq<Command>, ch: char)
    ensures CountLetter(a + b, ch) == CountLetter(a, ch) + CountLetter(b, ch)
    decreases |a|
  {
    if a == [] {
      assert a + b == b;
    } else {
      assert (a + b)[0] == a[0];
      assert (a + b)[1..] == a[1..] + b;
      CountLetterAppend(a[1..], b, ch);
    }
  }

  /** In the text, each letter occurs once per command that has it, and nowhere else. */
  lemma {:induction false} LetterCount(cmds: seq<Command>, ch: char)
    requires !ArgChar(ch)
    ensures Occurrences(Serialize(cmds), ch) == CountLetter(cmds, ch)
    decreases |cmds|
  {
    if cmds != [] {
      TokenLetters(cmds[0], ch);
      OccurrencesAppend(Token(cmds[0]), Serialize(cmds[1..]), ch);
      LetterCount(cmds[1..], ch);
    }
  }
}
