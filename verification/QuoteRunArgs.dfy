/**
 Quoting the arguments of a command so that the shell splits them back into the same
 words, and the shell's rules for splitting them.
 */
module QuoteRunArgs {
  import opened Options

  // ---------------------------------------------------------------------------
  // Quoting
  // ---------------------------------------------------------------------------

  /** `s.replace(c, text)` */
  function Replaced(s: string, c: char, text: string): string {
    if s == "" then "" else (if s[0] == c then text else [s[0]]) + Replaced(s[1..], c, text)
  }

  predicate NeedsQuotes(arg: string) {
    ' ' in arg || '"' in arg || '`' in arg
  }

  function QuoteArg(arg: string): string {
    if NeedsQuotes(arg) then "\"" + Replaced(Replaced(arg, '"', "\\\""), '`', "\\`") + "\"" else arg
  }

  function QuoteRunArgs(args: seq<string>): string {
    if args == [] then ""
    else if |args| == 1 then QuoteArg(args[0])
    else QuoteArg(args[0]) + " " + QuoteRunArgs(args[1..])
  }

  // ---------------------------------------------------------------------------
  // Splitting, by sections 2.2 (quoting), 2.3 (tokens), 2.4 (reserved words), 2.9.1
  // (assignments) and 2.13 (patterns) of the POSIX.1-2017 Shell Command Language
  // ---------------------------------------------------------------------------

  /**
   Between words; inside a word, `bare` if nothing of it was quoted; or inside double quotes
   within a word.
   */
  datatype Mode = Between | Word(text: string, bare: bool) | Quoted(text: string)

  function WordSoFar(mode: Mode): string {
    if mode.Between? then "" else mode.text
  }

  predicate Bare(mode: Mode) {
    mode.Between? || (mode.Word? && mode.bare)
  }

  /** A name that can be assigned to. */
  predicate IsVariableName(s: string) {
    && s != "" && !('0' <= s[0] <= '9')
    && forall i :: 0 <= i < |s| ==> 'a' <= s[i] <= 'z' || 'A' <= s[i] <= 'Z' || '0' <= s[i] <= '9' || s[i] == '_'
  }

  /** A closing bracket comes after at least `k` characters, in the same word and path component. */
  predicate Closes(s: string, k: nat) {
    s != "" && s[0] !in " /" && ((k == 0 && s[0] == ']') || Closes(s[1..], if k == 0 then 0 else k - 1))
  }

  /** What follows an opening bracket makes it a bracket expression, which is never empty. */
  predicate Bracketed(s: string) {
    Closes(s, if s != "" && s[0] == '!' then 2 else 1)
  }

  /**
   The first character of `rest`, unquoted, asks for more than being put in a word: always,
   for an operator, an expansion or a blank other than the space; in a bracket expression;
   at the start of a word, for a comment or a tilde; and behind a name in the first word, for
   an assignment.
   */
  predicate MeansMore(before: string, rest: string, bare: bool, first: bool)
    requires rest != ""
  {
    || rest[0] in "|&;<>()$`'\t\n*?"
    || (rest[0] == '[' && Bracketed(rest[1..]))
    || (rest[0] in "#~" && bare && before == "")
    || (rest[0] == '=' && bare && first && IsVariableName(before))
  }

  /** Words that do not name a command where a command name is expected. */
  const RESERVED: seq<string> := [
    "!", "{", "}", "case", "do", "done", "elif", "else", "esac", "fi", "for", "if", "then", "until", "while"]

  predicate EndsReserved(mode: Mode, first: bool) {
    first && mode.Word? && mode.bare && mode.text in RESERVED
  }

  /**
   The words of `s`; `first` until the command name is complete.  `None` if the text does not
   end outside quotes, or asks the shell for something other than splitting.
   */
  function Split(s: string, mode: Mode, first: bool): Option<seq<string>>
    decreases |s|
  {
    if s == "" then
      match mode
      case Between => Some([])
      case Word(w, _) => if EndsReserved(mode, first) then None else Some([w])
      case Quoted(_) => None
    else if mode.Quoted? then SplitQuoted(s, mode.text, first)
    else if s[0] == '"' then Split(s[1..], Quoted(WordSoFar(mode)), first)
    else if s[0] == ' ' then
      if mode.Between? then Split(s[1..], Between, first)
      else if EndsReserved(mode, first) then None
      else
        var rest := Split(s[1..], Between, false);
        if rest.Some? then Some([mode.text] + rest.value) else None
    else if s[0] == '\\' && |s| > 1 then
      if s[1] == '\n' then Split(s[2..], mode, first)
      else Split(s[2..], Word(WordSoFar(mode) + [s[1]], false), first)
    else if MeansMore(WordSoFar(mode), s, Bare(mode), first) then None
    else Split(s[1..], Word(WordSoFar(mode) + [s[0]], Bare(mode)), first)
  }

  function SplitQuoted(s: string, w: string, first: bool): Option<seq<string>>
    requires s != ""
    decreases |s|, 0
  {
    if s[0] == '"' then Split(s[1..], Word(w, false), first)
    else if s[0] == '$' || s[0] == '`' then None
    else if s[0] == '\\' && |s| > 1 && s[1] in "$`\"\\" then Split(s[2..], Quoted(w + [s[1]]), first)
    else if s[0] == '\\' && |s| > 1 && s[1] == '\n' then Split(s[2..], Quoted(w), first)
    else Split(s[1..], Quoted(w + [s[0]]), first)
  }

  // ---------------------------------------------------------------------------
  // Which arguments survive
  // ---------------------------------------------------------------------------

  /**
   Text that double quotes carry unchanged: no dollar sign, and no backslash in front of a
   character that a backslash escapes there, nor at the very end.
   */
  predicate QuotedSurvives(s: string) {
    s == "" ||
    (&& s[0] != '$'
     && (s[0] == '\\' ==> |s| > 1 && s[1] !in "$`\"\\\n")
     && QuotedSurvives(s[1..]))
  }

  /**
   Text that survives unquoted behind `before` in its word: no character that means more
   where it stands, and no backslash but at the end of all.
   */
  predicate PlainSurvives(before: string, s: string, first: bool, isLast: bool)
    decreases |s|
  {
    s == "" ||
    (&& !MeansMore(before, s, true, first)
     && (s[0] == '\\' ==> isLast && |s| == 1)
     && PlainSurvives(before + [s[0]], s[1..], first, isLast))
  }

  predicate Survives(arg: string, first: bool, isLast: bool) {
    && arg != ""
    && if ' ' in arg || '"' in arg || '`' in arg then QuotedSurvives(arg)
       else PlainSurvives("", arg, first, isLast) && !(first && arg in RESERVED)
  }

  predicate AllSurvive(args: seq<string>, first: bool) {
    args == [] || (Survives(args[0], first, |args| == 1) && AllSurvive(args[1..], false))
  }

  // ---------------------------------------------------------------------------
  // Escaping
  // ---------------------------------------------------------------------------

  predicate Escapable(c: char) {
    c == '"' || c == '`'
  }

  /** Both replacements in one pass. */
  function Escaped(s: string): string {
    if s == "" then "" else
      (if Escapable(s[0]) then ['\\', s[0]] else [s[0]]) + Escaped(s[1..])
  }

  lemma {:induction false} ReplacedAppend(a: string, b: string, c: char, text: string)
    ensures Replaced(a + b, c, text) == Replaced(a, c, text) + Replaced(b, c, text)
  {
    if a == "" {
      assert a + b == b;
    } else {
      assert (a + b)[1..] == a[1..] + b;
      ReplacedAppend(a[1..], b, c, text);
    }
  }

  lemma {:induction false} EscapedIsReplaced(s: string)
    ensures Replaced(Replaced(s, '"', "\\\""), '`', "\\`") == Escaped(s)
  {
    if s != "" {
      EscapedIsReplaced(s[1..]);
      var head := if s[0] == '"' then "\\\"" else [s[0]];
      ReplacedAppend(head, Replaced(s[1..], '"', "\\\""), '`', "\\`");
      assert Replaced(head, '`', "\\`") == if Escapable(s[0]) then ['\\', s[0]] else [s[0]] by {
        if s[0] == '"' {
          assert head[1..] == "\"" && "\""[1..] == "";
        } else {
          assert head[1..] == "";
        }
      }
    }
  }

  // ---------------------------------------------------------------------------
  // A bound on what splitting can yield
  // ---------------------------------------------------------------------------

  /** The characters of `s` other than double quotes and backquotes. */
  function Room(s: string): nat {
    if s == "" then 0 else (if Escapable(s[0]) then 0 else 1) + Room(s[1..])
  }

  function TotalLength(words: seq<string>): nat {
    if words == [] then 0 else |words[0]| + TotalLength(words[1..])
  }

  /** The characters of the words, and one separator between neighbours. */
  function Weight(words: seq<string>): nat {
    if words == [] then 0 else TotalLength(words) + |words| - 1
  }

  lemma {:induction false} RoomAppend(a: string, b: string)
    ensures Room(a + b) == Room(a) + Room(b)
  {
    if a == "" {
      assert a + b == b;
    } else {
      assert (a + b)[1..] == a[1..] + b;
      RoomAppend(a[1..], b);
    }
  }

  lemma WeightCons(w: string, rest: seq<string>)
    ensures Weight([w] + rest) == |w| + if rest == [] then 0 else 1 + Weight(rest)
  {
    assert ([w] + rest)[1..] == rest;
    assert TotalLength([w] + rest) == |w| + TotalLength(rest);
  }

  /** The room of a text whose first two characters are a backslash and another. */
  lemma RoomOfPair(s: string)
    requires |s| > 1 && s[0] == '\\'
    ensures Room(s) == 1 + (if Escapable(s[1]) then 0 else 1) + Room(s[2..])
  {
    assert s[1..][1..] == s[2..];
  }

  /** Splitting never makes characters up: every escape or separator costs one. */
  lemma {:induction false} SplitWithinRoom(s: string, mode: Mode, first: bool)
    requires Split(s, mode, first).Some?
    ensures Weight(Split(s, mode, first).value) <= |WordSoFar(mode)| + Room(s)
    decreases |s|
  {
    if s == "" {
      if mode.Word? {
        WeightCons(mode.text, []);
        assert [mode.text] + [] == [mode.text];
      }
    } else if s[0] == '\\' && |s| > 1 {
      RoomOfPair(s);
      BackslashWithinRoom(s, mode, first);
    } else if mode.Quoted? {
      if s[0] == '"' { SplitWithinRoom(s[1..], Word(mode.text, false), first); }
      else { SplitWithinRoom(s[1..], Quoted(mode.text + [s[0]]), first); }
    } else if s[0] == '"' {
      SplitWithinRoom(s[1..], Quoted(WordSoFar(mode)), first);
    } else if s[0] == ' ' {
      SplitWithinRoom(s[1..], Between, first && mode.Between?);
      if mode.Word? { WeightCons(mode.text, Split(s[1..], Between, false).value); }
    } else {
      SplitWithinRoom(s[1..], Word(WordSoFar(mode) + [s[0]], Bare(mode)), first);
    }
  }

  lemma {:induction false} BackslashWithinRoom(s: string, mode: Mode, first: bool)
    requires |s| > 1 && s[0] == '\\' && Split(s, mode, first).Some?
    ensures Weight(Split(s, mode, first).value) <= |WordSoFar(mode)| + Room(s)
    decreases |s|, 0
  {
    RoomOfPair(s);
    if mode.Quoted? {
      if s[1] in "$`\"\\" {
        SplitWithinRoom(s[2..], Quoted(mode.text + [s[1]]), first);
      } else if s[1] == '\n' {
        SplitWithinRoom(s[2..], Quoted(mode.text), first);
      } else {
        SplitWithinRoom(s[1..], Quoted(mode.text + [s[0]]), first);
      }
    } else if s[1] == '\n' {
      SplitWithinRoom(s[2..], mode, first);
    } else {
      SplitWithinRoom(s[2..], Word(WordSoFar(mode) + [s[1]], false), first);
    }
  }

  lemma {:induction false} EscapedRoom(s: string)
    ensures Room(Escaped(s)) == |s|
  {
    if s != "" {
      EscapedRoom(s[1..]);
      var head := if Escapable(s[0]) then ['\\', s[0]] else [s[0]];
      RoomAppend(head, Escaped(s[1..]));
      assert Room(head) == 1 by {
        if Escapable(s[0]) { RoomOfPair(head); assert head[2..] == ""; } else { assert head[1..] == ""; }
      }
    }
  }

  lemma {:induction false} PlainRoom(s: string)
    requires '"' !in s && '`' !in s
    ensures Room(s) == |s|
  {
    if s != "" {
      assert s[0] in s;
      PlainRoom(s[1..]);
    }
  }

  lemma QuoteArgRoom(arg: string)
    ensures Room(QuoteArg(arg)) == |arg|
  {
    if NeedsQuotes(arg) {
      EscapedIsReplaced(arg);
      EscapedRoom(arg);
      RoomAppend("\"" + Escaped(arg), "\"");
      RoomAppend("\"", Escaped(arg));
      assert Room("\"") == 0 by { assert "\""[1..] == ""; }
    } else {
      PlainRoom(arg);
    }
  }

  /** The quoted text has exactly the room its arguments and their separators take. */
  lemma {:induction false} QuoteRunArgsRoom(args: seq<string>)
    ensures Room(QuoteRunArgs(args)) == Weight(args)
  {
    if args != [] {
      var first, rest := args[0], args[1..];
      QuoteArgRoom(first);
      WeightCons(first, rest);
      assert args == [first] + rest;
      if rest != [] {
        QuoteRunArgsRoom(rest);
        RoomAppend(QuoteArg(first) + " ", QuoteRunArgs(rest));
        RoomAppend(QuoteArg(first), " ");
        assert Room(" ") == 1 by { assert " "[1..] == ""; }
      }
    }
  }

  // ---------------------------------------------------------------------------
  // One argument
  // ---------------------------------------------------------------------------

  /** The text that follows the opening quote of an argument. */
  function Inner(arg: string, tail: string): string {
    Escaped(arg) + "\"" + tail
  }

  lemma InnerStep(arg: string, tail: string)
    requires arg != ""
    ensures Escapable(arg[0]) ==>
              |Inner(arg, tail)| > 1 && Inner(arg, tail)[..2] == ['\\', arg[0]]
              && Inner(arg, tail)[2..] == Inner(arg[1..], tail)
    ensures !Escapable(arg[0]) ==>
              Inner(arg, tail)[0] == arg[0] && Inner(arg, tail)[1..] == Inner(arg[1..], tail)
  {
    var head := if Escapable(arg[0]) then ['\\', arg[0]] else [arg[0]];
    assert Inner(arg, tail) == head + Inner(arg[1..], tail);
  }

  lemma InnerRoom(arg: string, tail: string)
    ensures Room(Inner(arg, tail)) == |arg| + Room(tail)
  {
    EscapedRoom(arg);
    RoomAppend(Escaped(arg) + "\"", tail);
    RoomAppend(Escaped(arg), "\"");
    assert Room("\"") == 0 by { assert "\""[1..] == ""; }
  }

  /** The first character behind an opening quote goes into the word as it is. */
  predicate StepsOver(arg: string) {
    arg != "" && arg[0] != '$' && (arg[0] == '\\' ==> |arg| > 1 && arg[1] !in "$`\"\\\n")
  }

  lemma SplitInnerStep(arg: string, w: string, tail: string, first: bool)
    requires StepsOver(arg)
    ensures Split(Inner(arg, tail), Quoted(w), first) == Split(Inner(arg[1..], tail), Quoted(w + [arg[0]]), first)
  {
    InnerStep(arg, tail);
    var s := Inner(arg, tail);
    if Escapable(arg[0]) {
      assert s[0] == s[..2][0] && s[1] == s[..2][1];
    } else if arg[0] == '\\' {
      InnerStep(arg[1..], tail);
      assert s[1] == s[1..][0] == arg[1];
    }
  }

  lemma CloseQuote(w: string, tail: string, first: bool)
    ensures Split(Inner("", tail), Quoted(w), first) == Split(tail, Word(w, false), first)
  {
    assert Inner("", tail) == "\"" + tail;
    assert ("\"" + tail)[1..] == tail;
  }

  /** Inside quotes a surviving argument is read back character by character. */
  lemma {:induction false} SplitInner(arg: string, w: string, tail: string, first: bool)
    requires QuotedSurvives(arg)
    ensures Split(Inner(arg, tail), Quoted(w), first) == Split(tail, Word(w + arg, false), first)
    decreases |arg|
  {
    if arg == "" {
      CloseQuote(w, tail, first);
      assert w + arg == w;
    } else {
      assert w + [arg[0]] + arg[1..] == w + arg;
      SplitInner(arg[1..], w + [arg[0]], tail, first);
      SplitInnerStep(arg, w, tail, first);
    }
  }

  /** What has been read of a word stays its beginning. */
  lemma {:induction false} SplitKeepsWord(s: string, mode: Mode, first: bool)
    requires !mode.Between? && Split(s, mode, first).Some?
    ensures Split(s, mode, first).value != [] && mode.text <= Split(s, mode, first).value[0]
    decreases |s|
  {
    if s != "" && !(mode.Word? && s[0] == ' ') {
      if mode.Quoted? {
        if s[0] == '"' { SplitKeepsWord(s[1..], Word(mode.text, false), first); }
        else if s[0] == '\\' && |s| > 1 && s[1] in "$`\"\\" {
          SplitKeepsWord(s[2..], Quoted(mode.text + [s[1]]), first);
        }
        else if s[0] == '\\' && |s| > 1 && s[1] == '\n' { SplitKeepsWord(s[2..], mode, first); }
        else { SplitKeepsWord(s[1..], Quoted(mode.text + [s[0]]), first); }
      } else if s[0] == '"' {
        SplitKeepsWord(s[1..], Quoted(mode.text), first);
      } else if s[0] == '\\' && |s| > 1 {
        SplitKeepsWord(s[2..], if s[1] == '\n' then mode else Word(mode.text + [s[1]], false), first);
      } else {
        SplitKeepsWord(s[1..], Word(mode.text + [s[0]], mode.bare), first);
      }
    }
  }

  /** `words` cannot be `arg` followed by as much as `tail` has room for. */
  ghost predicate Loses(words: seq<string>, arg: string, tail: string) {
    words == [] || words[0] != arg || Weight(words) < |arg| + Room(tail)
  }

  /** Inside quotes a backslash before an escapable character disappears. */
  lemma EscapeInQuotes(s: string, w: string, first: bool)
    requires |s| > 1 && s[0] == '\\' && s[1] in "$`\"\\\n"
    ensures Split(s, Quoted(w), first) == Split(s[2..], Quoted(if s[1] == '\n' then w else w + [s[1]]), first)
  {
  }

  /** A backslash that ends the argument swallows the closing quote. */
  lemma FinalBackslashLoses(w: string, tail: string, first: bool)
    requires Split(Inner("\\", tail), Quoted(w), first).Some?
    ensures Loses(Split(Inner("\\", tail), Quoted(w), first).value, w + "\\", tail)
  {
    var s := Inner("\\", tail);
    assert Escaped("\\") == "\\" by { assert "\\"[1..] == ""; }
    assert s == "\\\"" + tail && s[2..] == tail;
    EscapeInQuotes(s, w, first);
    SplitKeepsWord(tail, Quoted(w + ['"']), first);
    assert (w + ['"'])[|w|] != (w + "\\")[|w|];
  }

  /** A backslash before an escapable character of the argument costs a character. */
  lemma InnerBackslashLoses(arg: string, w: string, tail: string, first: bool)
    requires |arg| > 1 && arg[0] == '\\' && arg[1] in "$`\"\\\n"
    requires Split(Inner(arg, tail), Quoted(w), first).Some?
    ensures Weight(Split(Inner(arg, tail), Quoted(w), first).value) < |w| + |arg| + Room(tail)
  {
    var s := Inner(arg, tail);
    InnerStep(arg, tail);
    InnerStep(arg[1..], tail);
    InnerRoom(arg, tail);
    assert s[1] == s[1..][0];
    RoomOfPair(s);
    EscapeInQuotes(s, w, first);
    SplitWithinRoom(s[2..], Quoted(if s[1] == '\n' then w else w + [s[1]]), first);
  }

  lemma DollarInQuotes(arg: string, w: string, tail: string, first: bool)
    requires arg != "" && arg[0] == '$'
    ensures Split(Inner(arg, tail), Quoted(w), first) == None
  {
    InnerStep(arg, tail);
  }

  /** A first character that does not go into the word as it is costs the argument. */
  lemma StuckInnerLoses(arg: string, w: string, tail: string, first: bool)
    requires arg != "" && !StepsOver(arg) && Split(Inner(arg, tail), Quoted(w), first).Some?
    ensures Loses(Split(Inner(arg, tail), Quoted(w), first).value, w + arg, tail)
  {
    if arg[0] == '$' {
      DollarInQuotes(arg, w, tail, first);
    } else if |arg| == 1 {
      assert arg == "\\";
      FinalBackslashLoses(w, tail, first);
    } else {
      InnerBackslashLoses(arg, w, tail, first);
    }
  }

  lemma SurvivesTail(arg: string)
    requires StepsOver(arg)
    ensures QuotedSurvives(arg) <==> QuotedSurvives(arg[1..])
  {
  }

  /** Inside quotes any other argument is read back changed, or at the cost of a character. */
  lemma {:induction false} SplitInnerLoses(arg: string, w: string, tail: string, first: bool)
    requires !QuotedSurvives(arg) && Split(Inner(arg, tail), Quoted(w), first).Some?
    ensures Loses(Split(Inner(arg, tail), Quoted(w), first).value, w + arg, tail)
    decreases |arg|
  {
    if StepsOver(arg) {
      var rest, longer := arg[1..], w + [arg[0]];
      SplitInnerStep(arg, w, tail, first);
      SurvivesTail(arg);
      SplitInnerLoses(rest, longer, tail, first);
      assert longer + rest == w + arg;
    } else {
      StuckInnerLoses(arg, w, tail, first);
    }
  }

  /** What follows an unquoted argument: nothing, or the next one behind a space. */
  predicate Follows(tail: string, isLast: bool) {
    if isLast then tail == "" else tail != "" && tail[0] == ' '
  }

  lemma {:induction false} ClosesWithin(s: string, k: nat, tail: string, isLast: bool)
    requires Follows(tail, isLast)
    ensures Closes(s + tail, k) <==> Closes(s, k)
  {
    if s == "" {
      assert s + tail == tail;
    } else {
      assert (s + tail)[1..] == s[1..] + tail;
      ClosesWithin(s[1..], if k == 0 then 0 else k - 1, tail, isLast);
    }
  }

  /** Whether a character means more is settled within its own argument. */
  lemma MeansMoreWithin(before: string, arg: string, first: bool, tail: string, isLast: bool)
    requires arg != "" && Follows(tail, isLast)
    ensures MeansMore(before, arg + tail, true, first) <==> MeansMore(before, arg, true, first)
  {
    var rest := arg[1..];
    assert (arg + tail)[1..] == rest + tail;
    ClosesWithin(rest, 1, tail, isLast);
    ClosesWithin(rest, 2, tail, isLast);
    assert rest == "" ==> !Bracketed(rest) && !Bracketed(rest + tail);
  }

  /** The mode in which an unquoted argument is read, `before` having been read of it. */
  function PlainMode(before: string): Mode {
    if before == "" then Between else Word(before, true)
  }

  lemma PlainStep(before: string, arg: string, first: bool, tail: string, isLast: bool)
    requires !NeedsQuotes(arg) && arg != "" && Follows(tail, isLast)
    requires arg[0] == '\\' ==> isLast && |arg| == 1
    ensures Split(arg + tail, PlainMode(before), first)
            == if MeansMore(before, arg, true, first) then None
               else Split(arg[1..] + tail, PlainMode(before + [arg[0]]), first)
  {
    assert arg[0] in arg && (arg + tail)[1..] == arg[1..] + tail;
    MeansMoreWithin(before, arg, first, tail, isLast);
  }

  /** Outside quotes a surviving argument is read back as it is. */
  lemma {:induction false} SplitPlain(before: string, arg: string, first: bool, isLast: bool, tail: string)
    requires !NeedsQuotes(arg) && PlainSurvives(before, arg, first, isLast) && Follows(tail, isLast)
    ensures Split(arg + tail, PlainMode(before), first) == Split(tail, PlainMode(before + arg), first)
    decreases |arg|
  {
    if arg == "" {
      assert arg + tail == tail && before + arg == before;
    } else {
      PlainStep(before, arg, first, tail, isLast);
      SplitPlain(before + [arg[0]], arg[1..], first, isLast, tail);
      assert before + [arg[0]] + arg[1..] == before + arg;
    }
  }

  /** Outside quotes a backslash in front of anything costs a character. */
  lemma PlainBackslashLoses(before: string, arg: string, first: bool, isLast: bool, tail: string)
    requires !NeedsQuotes(arg) && arg != "" && arg[0] == '\\' && !(isLast && |arg| == 1)
    requires Follows(tail, isLast) && Split(arg + tail, PlainMode(before), first).Some?
    ensures Weight(Split(arg + tail, PlainMode(before), first).value) < |before| + |arg| + Room(tail)
  {
    var s, mode := arg + tail, PlainMode(before);
    PlainRoom(arg);
    RoomAppend(arg, tail);
    RoomOfPair(s);
    assert !Escapable(s[1]) by {
      if |arg| > 1 { assert s[1] == arg[1] && arg[1] in arg; } else { assert s[1] == tail[0]; }
    }
    if s[1] == '\n' { SplitWithinRoom(s[2..], mode, first); }
    else { SplitWithinRoom(s[2..], Word(WordSoFar(mode) + [s[1]], false), first); }
  }

  /** Outside quotes any other argument is not split off at all, or at the cost of a character. */
  lemma {:induction false} SplitPlainLoses(before: string, arg: string, first: bool, isLast: bool, tail: string)
    requires !NeedsQuotes(arg) && !PlainSurvives(before, arg, first, isLast) && Follows(tail, isLast)
    requires Split(arg + tail, PlainMode(before), first).Some?
    ensures Weight(Split(arg + tail, PlainMode(before), first).value) < |before| + |arg| + Room(tail)
    decreases |arg|
  {
    if arg[0] == '\\' && !(isLast && |arg| == 1) {
      PlainBackslashLoses(before, arg, first, isLast, tail);
    } else {
      PlainStep(before, arg, first, tail, isLast);
      SplitPlainLoses(before + [arg[0]], arg[1..], first, isLast, tail);
    }
  }

  lemma QuotedText(arg: string, tail: string, first: bool)
    requires NeedsQuotes(arg)
    ensures Split(QuoteArg(arg) + tail, Between, first) == Split(Inner(arg, tail), Quoted(""), first)
  {
    EscapedIsReplaced(arg);
    var s := QuoteArg(arg) + tail;
    assert s == "\"" + Inner(arg, tail) && s[1..] == Inner(arg, tail);
  }

  lemma SplitSurviving(arg: string, first: bool, isLast: bool, tail: string)
    requires Survives(arg, first, isLast) && Follows(tail, isLast)
    ensures Split(QuoteArg(arg) + tail, Between, first) == Split(tail, Word(arg, !NeedsQuotes(arg)), first)
  {
    if NeedsQuotes(arg) {
      QuotedText(arg, tail, first);
      SplitInner(arg, "", tail, first);
    } else {
      SplitPlain("", arg, first, isLast, tail);
    }
    assert "" + arg == arg;
  }

  /** A reserved word in the place of the command name is not split off as a word. */
  lemma ReservedLoses(arg: string, isLast: bool, tail: string)
    requires arg in RESERVED && !NeedsQuotes(arg) && PlainSurvives("", arg, true, isLast) && Follows(tail, isLast)
    ensures Split(QuoteArg(arg) + tail, Between, true) == None
  {
    SplitPlain("", arg, true, isLast, tail);
    assert "" + arg == arg;
  }

  lemma SplitOther(arg: string, first: bool, isLast: bool, tail: string)
    requires arg != "" && !Survives(arg, first, isLast) && Split(QuoteArg(arg) + tail, Between, first).Some?
    requires Follows(tail, isLast)
    ensures Loses(Split(QuoteArg(arg) + tail, Between, first).value, arg, tail)
  {
    if NeedsQuotes(arg) {
      QuotedText(arg, tail, first);
      SplitInnerLoses(arg, "", tail, first);
      assert "" + arg == arg;
    } else if PlainSurvives("", arg, first, isLast) {
      ReservedLoses(arg, isLast, tail);
    } else {
      SplitPlainLoses("", arg, first, isLast, tail);
    }
  }

  // ---------------------------------------------------------------------------
  // Round trip
  // ---------------------------------------------------------------------------

  /** The text behind the first argument. */
  function TextBehindFirst(args: seq<string>): string
    requires args != []
  {
    if |args| == 1 then "" else " " + QuoteRunArgs(args[1..])
  }

  lemma {:induction false} FirstAndRest(args: seq<string>)
    requires args != []
    ensures QuoteRunArgs(args) == QuoteArg(args[0]) + TextBehindFirst(args)
    ensures Weight(args) == |args[0]| + Room(TextBehindFirst(args))
  {
    assert QuoteRunArgs(args) == QuoteArg(args[0]) + TextBehindFirst(args);
    QuoteRunArgsRoom(args);
    QuoteArgRoom(args[0]);
    RoomAppend(QuoteArg(args[0]), TextBehindFirst(args));
  }

  /** A space ends the word it follows. */
  lemma SplitSpace(text: string, mode: Mode, first: bool)
    requires mode.Word? && !EndsReserved(mode, first)
    ensures Split(" " + text, mode, first)
            == if Split(text, Between, false).Some?
               then Some([mode.text] + Split(text, Between, false).value) else None
  {
    assert (" " + text)[1..] == text;
  }

  /** From a given argument on, the shell splits the text back if and only if every one survives. */
  lemma {:induction false} RoundTripFrom(args: seq<string>, first: bool)
    ensures Split(QuoteRunArgs(args), Between, first) == Some(args) <==> AllSurvive(args, first)
  {
    if args != [] {
      var arg, rest, tail := args[0], args[1..], TextBehindFirst(args);
      var isLast := |args| == 1;
      FirstAndRest(args);
      if Survives(arg, first, isLast) {
        SplitSurviving(arg, first, isLast, tail);
        if !isLast {
          RoundTripFrom(rest, false);
          var split := Split(QuoteRunArgs(rest), Between, false);
          SplitSpace(QuoteRunArgs(rest), Word(arg, !NeedsQuotes(arg)), first);
          assert args == [arg] + rest;
          assert split.Some? ==> ([arg] + split.value)[1..] == split.value;
        } else {
          assert args == [arg];
        }
      } else if arg == "" {
        EmptyFirst(args, first);
      } else if Split(QuoteRunArgs(args), Between, first).Some? {
        SplitOther(arg, first, isLast, tail);
      }
    }
  }

  /**
   For every command line: the shell splits the quoted text back into it if and only if every
   argument survives, which can be read off each argument and its place alone.
   */
  lemma QuotingRoundTripIff(args: seq<string>)
    ensures Split(QuoteRunArgs(args), Between, true) == Some(args) <==> AllSurvive(args, true)
  {
    RoundTripFrom(args, true);
  }

  /** An empty argument vanishes. */
  lemma EmptyFirst(args: seq<string>, first: bool)
    requires args != [] && args[0] == ""
    ensures Split(QuoteRunArgs(args), Between, first) != Some(args)
  {
    FirstAndRest(args);
    if |args| > 1 {
      var text := QuoteRunArgs(args[1..]);
      assert QuoteRunArgs(args) == " " + text && (" " + text)[1..] == text;
      RoomAppend(" ", text);
      assert Room(" ") == 1 by { assert " "[1..] == ""; }
      if Split(text, Between, first).Some? { SplitWithinRoom(text, Between, first); }
    } else {
      assert QuoteRunArgs(args) == "";
    }
  }

  /**
   An argument is changed exactly if it holds a space, a double quote or a backquote; it is
   then put in double quotes, with every double quote and backquote escaped.
   */
  lemma QuotedIff(arg: string)
    ensures QuoteArg(arg) == arg <==> ' ' !in arg && '"' !in arg && '`' !in arg
    ensures ' ' in arg || '"' in arg || '`' in arg ==> QuoteArg(arg) == "\"" + Escaped(arg) + "\""
  {
    if NeedsQuotes(arg) {
      EscapedIsReplaced(arg);
      EscapedLength(arg);
      assert |QuoteArg(arg)| > |arg|;
    }
  }

  lemma {:induction false} EscapedLength(s: string)
    ensures |Escaped(s)| >= |s|
  {
    if s != "" { EscapedLength(s[1..]); }
  }

  // ---------------------------------------------------------------------------
  // Everyday arguments
  // ---------------------------------------------------------------------------

  /** A character that means no more than itself anywhere behind the start of an argument. */
  predicate Everyday(c: char) {
    c !in " \"\\|&;<>()$`'\t\n*?["
  }

  lemma {:induction false} EverydaySurvives(before: string, s: string, isLast: bool)
    requires forall c :: c in s ==> Everyday(c)
    requires before == "" ==> s == "" || s[0] !in "#~"
    ensures PlainSurvives(before, s, false, isLast)
    decreases |s|
  {
    if s != "" {
      assert s[0] in s;
      EverydaySurvives(before + [s[0]], s[1..], isLast);
    }
  }

  lemma {:induction false} EverydayAllSurvive(args: seq<string>)
    requires forall i :: 0 <= i < |args| ==> args[i] != "" && args[i][0] !in "#~"
    requires forall i, c :: 0 <= i < |args| && c in args[i] ==> Everyday(c)
    ensures AllSurvive(args, false)
  {
    if args != [] {
      EverydaySurvives("", args[0], |args| == 1);
      assert forall i :: 0 <= i < |args[1..]| ==> args[1..][i] == args[i + 1];
      EverydayAllSurvive(args[1..]);
    }
  }

  /** Behind a command that survives, options such as `--name=value` or `100%` come through. */
  lemma EverydayRoundTrip(command: string, options: seq<string>)
    requires Survives(command, true, options == [])
    requires forall i :: 0 <= i < |options| ==> options[i] != "" && options[i][0] !in "#~"
    requires forall i, c :: 0 <= i < |options| && c in options[i] ==> Everyday(c)
    ensures Split(QuoteRunArgs([command] + options), Between, true) == Some([command] + options)
  {
    var args := [command] + options;
    assert args[1..] == options;
    EverydayAllSurvive(options);
    QuotingRoundTripIff(args);
  }

  /** Backslashes are not escaped, and do not survive outside quotes. */
  lemma BackslashIsLost()
    ensures Split(QuoteRunArgs(["a\\b"]), Between, true) == Some(["ab"])
  {
    var s := "a\\b";
    assert QuoteRunArgs([s]) == s;
    assert s[1..] == "\\b" && "\\b"[2..] == "";
    assert WordSoFar(Between) + ['a'] == "a" && "a" + ['b'] == "ab";
  }
}
