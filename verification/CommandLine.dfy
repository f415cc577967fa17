/** The launcher's command line: quoting each argument so that the Windows rule for splitting a
    command line gives it back. */
module CommandLine {

  // ---------------------------------------------------------------- the splitting rule

  predicate IsBlank(c: char) {
    c == ' ' || c == '\t'
  }

  function Backslashes(n: nat): (r: string)
    ensures |r| == n && forall c <- r :: c == '\\'
  {
    if n == 0 then "" else "\\" + Backslashes(n - 1)
  }

  function LeadingBackslashes(s: string): (n: nat)
    ensures n <= |s| && (n < |s| ==> s[n] != '\\')
  {
    if s == "" || s[0] != '\\' then 0 else 1 + LeadingBackslashes(s[1..])
  }

  /** An argument and what follows it. Before a quote, 2n backslashes stand for n and leave the quote
      a delimiter, 2n + 1 stand for n and make it a literal quote; elsewhere a backslash is itself. */
  function ReadArgument(s: string, quoted: bool): (r: (string, string))
    ensures |r.1| <= |s|
    ensures !quoted && s != "" && !IsBlank(s[0]) ==> |r.1| < |s|
    decreases |s|
  {
    if s == "" || (!quoted && IsBlank(s[0])) then ("", s)
    else if s[0] == '"' then ReadArgument(s[1..], !quoted)
    else if s[0] == '\\' then
      var n := LeadingBackslashes(s);
      if n < |s| && s[n] == '"' then
        if n % 2 == 0 then
          var (argument, rest) := ReadArgument(s[n + 1..], !quoted);
          (Backslashes(n / 2) + argument, rest)
        else
          var (argument, rest) := ReadArgument(s[n + 1..], quoted);
          (Backslashes(n / 2) + "\"" + argument, rest)
      else
        var (argument, rest) := ReadArgument(s[n..], quoted);
        (Backslashes(n) + argument, rest)
    else
      var (argument, rest) := ReadArgument(s[1..], quoted);
      ([s[0]] + argument, rest)
  }

  function SplitArguments(s: string): seq<string>
    decreases |s|
  {
    if s == "" then []
    else if IsBlank(s[0]) then SplitArguments(s[1..])
    else
      var (argument, rest) := ReadArgument(s, false);
      [argument] + SplitArguments(rest)
  }

  // ---------------------------------------------------------------- quoting

  /** The quoted form of the rest of a value, with `slashes` backslashes not yet written. */
  function QuoteRest(value: string, slashes: nat): string
    decreases value
  {
    if value == "" then Backslashes(2 * slashes) + "\""
    else if value[0] == '\\' then QuoteRest(value[1..], slashes + 1)
    else if value[0] == '"' then Backslashes(2 * slashes + 1) + "\"" + QuoteRest(value[1..], 0)
    else Backslashes(slashes) + [value[0]] + QuoteRest(value[1..], 0)
  }

  function Quoted(value: string): string {
    "\"" + QuoteRest(value, 0)
  }

  method Quote(value: string) returns (result: string)
    ensures result == Quoted(value)
  {
    result := "\"";
    var slashes := 0;
    for i := 0 to |value|
      invariant slashes >= 0
      invariant result + QuoteRest(value[i..], slashes) == Quoted(value)
    {
      var ch := value[i];
      assert value[i..][1..] == value[i + 1..];
      if ch == '\\' {
        slashes := slashes + 1;
      } else if ch == '"' {
        result := result + Backslashes(slashes * 2 + 1);
        result := result + [ch];
        slashes := 0;
      } else {
        result := result + Backslashes(slashes);
        slashes := 0;
        result := result + [ch];
      }
    }
    assert value[|value|..] == "";
    result := result + Backslashes(slashes * 2) + "\"";
  }

  lemma {:induction false} CountBackslashes(n: nat, tail: string)
    requires tail != "" && tail[0] != '\\'
    ensures LeadingBackslashes(Backslashes(n) + tail) == n
    ensures (Backslashes(n) + tail)[n..] == tail
  {
    if n > 0 {
      assert (Backslashes(n) + tail)[1..] == Backslashes(n - 1) + tail;
      CountBackslashes(n - 1, tail);
    } else {
      assert Backslashes(0) + tail == tail;
    }
  }

  lemma {:induction false} AddBackslashes(m: nat, n: nat)
    ensures Backslashes(m) + Backslashes(n) == Backslashes(m + n)
  {
    if m > 0 {
      AddBackslashes(m - 1, n);
    }
  }

  /** Backslashes in front of a character that is neither a backslash nor a quote are literal. */
  lemma ReadLiteral(n: nat, tail: string, quoted: bool)
    requires tail != "" && tail[0] != '\\' && tail[0] != '"'
    ensures var (argument, rest) := ReadArgument(tail, quoted);
            ReadArgument(Backslashes(n) + tail, quoted) == (Backslashes(n) + argument, rest)
  {
    CountBackslashes(n, tail);
    if n == 0 {
      assert Backslashes(0) + tail == tail;
      assert Backslashes(0) + ReadArgument(tail, quoted).0 == ReadArgument(tail, quoted).0;
    } else {
      assert (Backslashes(n) + tail)[0] == '\\' && (Backslashes(n) + tail)[n] == tail[0];
    }
  }

  lemma ReadBeforeQuote(n: nat, tail: string, quoted: bool)
    ensures var read := ReadArgument(Backslashes(n) + "\"" + tail, quoted);
            if n % 2 == 0 then
              read == (Backslashes(n / 2) + ReadArgument(tail, !quoted).0, ReadArgument(tail, !quoted).1)
            else
              read == (Backslashes(n / 2) + "\"" + ReadArgument(tail, quoted).0, ReadArgument(tail, quoted).1)
  {
    var all := Backslashes(n) + ("\"" + tail);
    Associative(Backslashes(n), "\"", tail);
    CountBackslashes(n, "\"" + tail);
    QuotePosition(n, tail);
    if n == 0 {
      assert Backslashes(0) + ReadArgument(tail, !quoted).0 == ReadArgument(tail, !quoted).0;
    }
  }

  lemma QuotePosition(n: nat, tail: string)
    ensures var all := Backslashes(n) + ("\"" + tail);
            |all| > n && all[n] == '"' && all[n + 1..] == tail && (n > 0 ==> all[0] == '\\')
  {
  }

  lemma Associative<T>(a: seq<T>, b: seq<T>, c: seq<T>)
    ensures a + b + c == a + (b + c)
  {
  }

  /** Inside quotes, the quoted rest of a value reads as the pending backslashes and that value, up
      to its closing quote. */
  lemma {:induction false} ReadQuoteRest(value: string, slashes: nat, tail: string)
    requires tail == "" || IsBlank(tail[0])
    ensures ReadArgument(QuoteRest(value, slashes) + tail, true) == (Backslashes(slashes) + value, tail)
    decreases value
  {
    if value == "" {
      ReadBeforeQuote(2 * slashes, tail, true);
      assert ReadArgument(tail, false) == ("", tail);
      assert Backslashes(slashes) + "" == Backslashes(slashes);
    } else if value[0] == '\\' {
      ReadQuoteRest(value[1..], slashes + 1, tail);
      PendingBackslash(value, slashes);
    } else {
      ReadQuoteRest(value[1..], 0, tail);
      assert Backslashes(0) + value[1..] == value[1..];
      if value[0] == '"' {
        ReadEscapedQuote(value, slashes, tail);
      } else {
        ReadOrdinary(value, slashes, tail);
      }
    }
  }

  lemma PendingBackslash(value: string, slashes: nat)
    requires value != "" && value[0] == '\\'
    ensures Backslashes(slashes + 1) + value[1..] == Backslashes(slashes) + value
  {
    AddBackslashes(slashes, 1);
    assert Backslashes(1) == "\\";
    assert "\\" + value[1..] == value;
    assert Backslashes(slashes) + "\\" + value[1..] == Backslashes(slashes) + ("\\" + value[1..]);
  }

  lemma ReadEscapedQuote(value: string, slashes: nat, tail: string)
    requires value != "" && value[0] == '"'
    requires ReadArgument(QuoteRest(value[1..], 0) + tail, true) == (value[1..], tail)
    ensures ReadArgument(QuoteRest(value, slashes) + tail, true) == (Backslashes(slashes) + value, tail)
  {
    var after := QuoteRest(value[1..], 0) + tail;
    assert QuoteRest(value, slashes) == Backslashes(2 * slashes + 1) + "\"" + QuoteRest(value[1..], 0);
    ReadBeforeQuote(2 * slashes + 1, after, true);
    Associative(Backslashes(2 * slashes + 1) + "\"", QuoteRest(value[1..], 0), tail);
    Associative(Backslashes(slashes), "\"", value[1..]);
    assert "\"" + value[1..] == value;
    assert (2 * slashes + 1) / 2 == slashes && (2 * slashes + 1) % 2 == 1;
  }

  lemma ReadOrdinary(value: string, slashes: nat, tail: string)
    requires value != "" && value[0] != '"' && value[0] != '\\'
    requires ReadArgument(QuoteRest(value[1..], 0) + tail, true) == (value[1..], tail)
    ensures ReadArgument(QuoteRest(value, slashes) + tail, true) == (Backslashes(slashes) + value, tail)
  {
    var here := [value[0]] + (QuoteRest(value[1..], 0) + tail);
    assert here[1..] == QuoteRest(value[1..], 0) + tail;
    assert [value[0]] + value[1..] == value;
    assert ReadArgument(here, true) == (value, tail);
    ReadLiteral(slashes, here, true);
    Associative(Backslashes(slashes), [value[0]], QuoteRest(value[1..], 0));
    Associative(Backslashes(slashes), [value[0]] + QuoteRest(value[1..], 0), tail);
    Associative([value[0]], QuoteRest(value[1..], 0), tail);
  }

  /** Any string whatever is read back from its quoted form. */
  lemma QuotedIsReadBack(value: string, tail: string)
    requires tail == "" || IsBlank(tail[0])
    ensures ReadArgument(Quoted(value) + tail, false) == (value, tail)
  {
    assert (Quoted(value) + tail)[0] == '"' && (Quoted(value) + tail)[1..] == QuoteRest(value, 0) + tail;
    ReadQuoteRest(value, 0, tail);
    assert Backslashes(0) + value == value;
  }

  // ---------------------------------------------------------------- whole command lines

  /** What stands between blanks on the launcher's command line. */
  datatype Token = Word(text: string) | Value(text: string)

  predicate IsPlain(c: char) {
    !IsBlank(c) && c != '"' && c != '\\'
  }

  /** A word needs no quoting. */
  predicate IsWord(s: string) {
    s != "" && forall c <- s :: IsPlain(c)
  }

  predicate WellFormed(tokens: seq<Token>) {
    forall t <- tokens :: t.Word? ==> IsWord(t.text)
  }

  function Written(t: Token): string {
    if t.Word? then t.text else Quoted(t.text)
  }

  function Joined(tokens: seq<Token>): string {
    if tokens == [] then ""
    else if |tokens| == 1 then Written(tokens[0])
    else Written(tokens[0]) + " " + Joined(tokens[1..])
  }

  function Texts(tokens: seq<Token>): seq<string> {
    if tokens == [] then [] else [tokens[0].text] + Texts(tokens[1..])
  }

  lemma {:induction false} ReadWord(word: string, tail: string)
    requires forall c <- word :: IsPlain(c)
    requires tail == "" || IsBlank(tail[0])
    ensures ReadArgument(word + tail, false) == (word, tail)
  {
    if word == "" {
      assert word + tail == tail;
    } else {
      assert word[0] in word && (word + tail)[1..] == word[1..] + tail;
      ReadWord(word[1..], tail);
      assert [word[0]] + word[1..] == word;
    }
  }

  lemma ReadToken(t: Token, tail: string)
    requires t.Word? ==> IsWord(t.text)
    requires tail == "" || IsBlank(tail[0])
    ensures SplitArguments(Written(t) + tail) == [t.text] + SplitArguments(tail)
  {
    var s := Written(t) + tail;
    if t.Word? {
      ReadWord(t.text, tail);
      assert t.text[0] in t.text;
    } else {
      QuotedIsReadBack(t.text, tail);
    }
    assert s != "" && !IsBlank(s[0]);
  }

  lemma {:induction false} SplitOfJoined(tokens: seq<Token>)
    requires WellFormed(tokens)
    ensures SplitArguments(Joined(tokens)) == Texts(tokens)
  {
    if |tokens| == 1 {
      assert Written(tokens[0]) + "" == Written(tokens[0]);
      ReadToken(tokens[0], "");
    } else if |tokens| > 1 {
      var tail := " " + Joined(tokens[1..]);
      ReadToken(tokens[0], tail);
      assert tail[1..] == Joined(tokens[1..]);
      assert Joined(tokens) == Written(tokens[0]) + tail;
      SplitOfJoined(tokens[1..]);
    }
  }

  const NO_DIALOG := "--no-dialog"
  const DIAGNOSE := "--diagnose"

  /** The arguments passed on: all but the launcher's own switches. */
  function Forwarded(args: seq<string>): seq<string> {
    if args == [] then []
    else
      var last := args[|args| - 1];
      Forwarded(args[..|args| - 1]) + if last == NO_DIALOG || last == DIAGNOSE then [] else [last]
  }

  /** The launcher keeps its own two switches to itself and passes on everything else in order. */
  lemma ForwardedOne(arg: string)
    ensures Forwarded([arg]) == if arg == "--no-dialog" || arg == "--diagnose" then [] else [arg]
  {
    assert [arg][..0] == [] && Forwarded([]) == [];
  }

  lemma {:induction false} ForwardedConcat(a: seq<string>, b: seq<string>)
    ensures Forwarded(a + b) == Forwarded(a) + Forwarded(b)
  {
    if b == [] {
      assert a + b == a;
    } else {
      var n := |b| - 1;
      ForwardedConcat(a, b[..n]);
      assert (a + b)[..|a| + n] == a + b[..n];
    }
  }

  function Values(texts: seq<string>): (r: seq<Token>)
    ensures |r| == |texts| && forall i | 0 <= i < |r| :: r[i] == Value(texts[i])
  {
    seq(|texts|, i requires 0 <= i < |texts| => Value(texts[i]))
  }

  lemma {:induction false} JoinedAppend(tokens: seq<Token>, t: Token)
    requires tokens != []
    ensures Joined(tokens + [t]) == Joined(tokens) + " " + Written(t)
  {
    if |tokens| == 1 {
      assert (tokens + [t])[1..] == [t];
    } else {
      var first, rest := Written(tokens[0]), tokens[1..];
      assert (tokens + [t])[1..] == rest + [t];
      JoinedAppend(rest, t);
      Associative(first + " ", Joined(rest) + " ", Written(t));
      Associative(first + " ", Joined(rest), " ");
    }
  }

  lemma {:induction false} TextsAppend(a: seq<Token>, b: seq<Token>)
    ensures Texts(a + b) == Texts(a) + Texts(b)
  {
    if a == [] {
      assert a + b == b;
    } else {
      assert (a + b)[1..] == a[1..] + b;
      TextsAppend(a[1..], b);
    }
  }

  lemma {:induction false} TextsOfValues(texts: seq<string>)
    ensures Texts(Values(texts)) == texts
  {
    if texts != [] {
      TextsOfValues(texts[1..]);
      assert Values(texts)[1..] == Values(texts[1..]);
    }
  }

  const PREFIX := [Word("-I"), Word("-B"), Word("-X"), Word("utf8")]

  lemma PrefixJoined()
    ensures Joined(PREFIX) == "-I -B -X utf8"
    ensures Texts(PREFIX) == ["-I", "-B", "-X", "utf8"]
    ensures forall t <- PREFIX :: IsWord(t.text)
  {
    assert PREFIX == [Word("-I")] + [Word("-B")] + [Word("-X")] + [Word("utf8")];
    PrefixWords();
    PrefixTexts();
    JoinedAppend([Word("-I")], Word("-B"));
    JoinedAppend([Word("-I")] + [Word("-B")], Word("-X"));
    JoinedAppend([Word("-I")] + [Word("-B")] + [Word("-X")], Word("utf8"));
    assert "-I" + " " + "-B" + " " + "-X" + " " + "utf8" == "-I -B -X utf8";
  }

  lemma PrefixWords()
    ensures IsWord("-I") && IsWord("-B") && IsWord("-X") && IsWord("utf8")
  {
  }

  lemma PrefixTexts()
    ensures Texts(PREFIX) == ["-I", "-B", "-X", "utf8"]
  {
    assert PREFIX[1..] == [Word("-B"), Word("-X"), Word("utf8")];
    assert PREFIX[1..][1..] == [Word("-X"), Word("utf8")];
    assert PREFIX[1..][1..][1..] == [Word("utf8")];
    assert PREFIX[1..][1..][1..][1..] == [];
  }

  /** What the launcher means to pass to the interpreter. */
  function Intended(script: string, forwarded: seq<string>, gui: bool, resources: string): seq<string> {
    ["-I", "-B", "-X", "utf8", script] + forwarded + (if gui then ["gui"] else []) + ["--assets", resources]
  }

  function Optional(gui: bool): seq<Token> {
    if gui then [Word("gui")] else []
  }

  function Tokens(script: string, forwarded: seq<string>, gui: bool, resources: string): seq<Token> {
    PREFIX + [Value(script)] + Values(forwarded) + Optional(gui) + [Word("--assets")] + [Value(resources)]
  }

  lemma TokensAreIntended(script: string, forwarded: seq<string>, gui: bool, resources: string)
    ensures Texts(Tokens(script, forwarded, gui, resources)) == Intended(script, forwarded, gui, resources)
  {
    PrefixJoined();
    TextsOfValues(forwarded);
    TextsOfAll(PREFIX, [Value(script)], Values(forwarded), Optional(gui), [Word("--assets")], [Value(resources)]);
    assert Texts([Value(script)]) == [script] && Texts([Value(resources)]) == [resources];
    assert Texts([Word("--assets")]) == ["--assets"] && Texts(Optional(gui)) == if gui then ["gui"] else [];
    assert ["--assets"] + [resources] == ["--assets", resources];
    assert ["-I", "-B", "-X", "utf8"] + [script] == ["-I", "-B", "-X", "utf8", script];
    var front := ["-I", "-B", "-X", "utf8", script] + forwarded + (if gui then ["gui"] else []);
    Associative(front, ["--assets"], [resources]);
  }

  lemma TokensWellFormed(script: string, forwarded: seq<string>, gui: bool, resources: string)
    ensures WellFormed(Tokens(script, forwarded, gui, resources))
  {
    PrefixWords();
    assert IsWord("gui") && IsWord("--assets");
    assert forall t <- PREFIX :: t.Word? ==> IsWord(t.text) by {
      PrefixJoined();
    }
  }

  lemma TextsOfAll(a: seq<Token>, b: seq<Token>, c: seq<Token>, d: seq<Token>, e: seq<Token>, f: seq<Token>)
    ensures Texts(a + b + c + d + e + f) == Texts(a) + Texts(b) + Texts(c) + Texts(d) + Texts(e) + Texts(f)
  {
    TextsAppend(a, b);
    TextsAppend(a + b, c);
    TextsAppend(a + b + c, d);
    TextsAppend(a + b + c + d, e);
    TextsAppend(a + b + c + d + e, f);
  }

  method IsDiagnosis(args: seq<string>) returns (diagnose: bool)
    ensures diagnose <==> DIAGNOSE in args
  {
    diagnose := false;
    for i := 0 to |args|
      invariant diagnose <==> DIAGNOSE in args[..i]
    {
      assert args[..i + 1] == args[..i] + [args[i]];
      if args[i] == DIAGNOSE {
        diagnose := true;
      }
    }
    assert args[..|args|] == args;
  }

  method ForwardArguments(start: string, ghost front: seq<Token>, args: seq<string>)
    returns (command: string, hasForwardedArgs: bool)
    requires front != [] && start == Joined(front)
    ensures command == Joined(front + Values(Forwarded(args)))
    ensures hasForwardedArgs <==> Forwarded(args) != []
  {
    command, hasForwardedArgs := start, false;
    assert front + Values(Forwarded(args[..0])) == front;
    for i := 0 to |args|
      invariant command == Joined(front + Values(Forwarded(args[..i])))
      invariant hasForwardedArgs <==> Forwarded(args[..i]) != []
    {
      ghost var soFar := Forwarded(args[..i]);
      assert args[..i + 1][..i] == args[..i];
      if args[i] == NO_DIALOG || args[i] == DIAGNOSE {
        assert soFar + [] == soFar;
        continue;
      }
      var quoted := Quote(args[i]);
      JoinedAppend(front + Values(soFar), Value(args[i]));
      assert front + Values(soFar) + [Value(args[i])] == front + Values(soFar + [args[i]]);
      command := command + " " + quoted;
      hasForwardedArgs := true;
    }
    assert args[..|args|] == args;
  }

  /** The command line built for the interpreter, read back by the splitting rule, is exactly the
      intended argument list, whatever the script path, the user's arguments and the resource path
      contain. */
  method BuildCommand(script: string, args: seq<string>, resources: string) returns (command: string)
    ensures SplitArguments(command)
            == Intended(script, Forwarded(args), "--diagnose" !in args && Forwarded(args) == [], resources)
  {
    var diagnose := IsDiagnosis(args);
    PrefixJoined();
    JoinedAppend(PREFIX, Value(script));
    var quoted := Quote(script);
    var hasForwardedArgs;
    assert "-I -B -X utf8 " + quoted == "-I -B -X utf8" + " " + quoted;
    command, hasForwardedArgs := ForwardArguments("-I -B -X utf8 " + quoted, PREFIX + [Value(script)], args);
    command := FinishCommand(command, PREFIX + [Value(script)] + Values(Forwarded(args)),
                             !diagnose && !hasForwardedArgs, resources);
    var gui := !diagnose && !hasForwardedArgs;
    TokensAreIntended(script, Forwarded(args), gui, resources);
    TokensWellFormed(script, Forwarded(args), gui, resources);
    SplitOfJoined(Tokens(script, Forwarded(args), gui, resources));
  }

  lemma GuiJoined(front: seq<Token>, gui: bool)
    requires front != []
    ensures Joined(front + Optional(gui)) == Joined(front) + if gui then " gui" else ""
  {
    if gui {
      JoinedAppend(front, Word("gui"));
      assert Joined(front) + " gui" == Joined(front) + " " + "gui";
    } else {
      assert front + [] == front;
    }
  }

  lemma AssetsJoined(front: seq<Token>, resources: string)
    requires front != []
    ensures Joined(front + [Word("--assets")] + [Value(resources)])
            == Joined(front) + " --assets " + Quoted(resources)
  {
    JoinedAppend(front, Word("--assets"));
    JoinedAppend(front + [Word("--assets")], Value(resources));
    assert Joined(front) + " --assets " == Joined(front) + " " + "--assets" + " ";
  }

  method FinishCommand(start: string, ghost front: seq<Token>, gui: bool, resources: string) returns (command: string)
    requires front != [] && start == Joined(front)
    ensures command == Joined(front + Optional(gui) + [Word("--assets")] + [Value(resources)])
  {
    command := start;
    if gui {
      command := command + " gui";
    }
    GuiJoined(front, gui);
    assert start + "" == start;
    AssetsJoined(front + Optional(gui), resources);
    var quoted := Quote(resources);
    command := command + " --assets " + quoted;
  }
}
