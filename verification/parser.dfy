/** The line-oriented script reader (parser.rs): one recogniser per kind of
    line, a driver that tries them in a fixed order on every non-blank line,
    and error collection with 1-based line numbers. The input is the list of
    lines, already read. */
module Parser {
  import opened Results
  import opened Numbers
  import opened Strings

  // ---------------------------------------------------------------- statements

  /** A comparison operand: a variable, or a literal that parsed as an `i32`. */
  datatype RelationEntity = Variable(name: string) | Number(n: i32)

  datatype Condition =
    | IsSet(variable: string)
    | Equals(lhs: RelationEntity, rhs: RelationEntity)
    | MoreThan(lhs: RelationEntity, rhs: RelationEntity)

  datatype Statement =
    | If(cond: Condition)
    | Else
    | End
    | Text(speaker: Option<string>, content: string)
    | Choice(options: seq<string>)
    | LoadCharacter(character: string, expression: string, placement: string)
    | LoadBackground(name: string)
    | PlaySound(name: string, channel: Option<string>)

  datatype IfError = InvalidAmountOfParts(count: nat) | InvalidComparisonSymbol(symbol: string)

  datatype ParseError = IfFailed(cause: IfError) | UnknownSyntax(text: string)

  /** An error together with the 1-based number of the line it was found on. */
  datatype LineError = LineError(line: nat, error: ParseError)

  datatype EvalError = UnsetVariable(name: string)

  // ---------------------------------------------------------------- evaluation

  predicate Defined(e: RelationEntity, vars: map<string, i32>) {
    e.Number? || e.name in vars
  }

  /** `RelationEntity::get_value`: a literal is its own value, a variable is
      looked up and an unset one is an error, never a default. */
  function GetValue(e: RelationEntity, vars: map<string, i32>): (r: Result<i32, EvalError>)
    ensures r.Ok? <==> Defined(e, vars)
    ensures e.Number? ==> r == Ok(e.n)
    ensures e.Variable? && r.Ok? ==> r.value == vars[e.name]
    ensures r.Err? ==> r.error == UnsetVariable(e.name)
  {
    match e
    case Number(n) => Ok(n)
    case Variable(name) => if name in vars then Ok(vars[name]) else Err(UnsetVariable(name))
  }

  /** `Condition::check`: `IsSet` asks whether the variable has a value and
      cannot fail; the comparisons need both sides, the left one first. */
  function Check(c: Condition, vars: map<string, i32>): (r: Result<bool, EvalError>)
    ensures c.IsSet? ==> r == Ok(c.variable in vars)
    ensures !c.IsSet? ==> (r.Ok? <==> Defined(c.lhs, vars) && Defined(c.rhs, vars))
    ensures !c.IsSet? && r.Err? ==> r.error == UnsetVariable(if Defined(c.lhs, vars) then c.rhs.name else c.lhs.name)
    ensures c.Equals? && r.Ok? ==> r.value == (GetValue(c.lhs, vars).value == GetValue(c.rhs, vars).value)
    ensures c.MoreThan? && r.Ok? ==> r.value == (GetValue(c.lhs, vars).value > GetValue(c.rhs, vars).value)
  {
    match c
    case IsSet(v) => Ok(v in vars)
    case Equals(lhs, rhs) =>
      var a :- GetValue(lhs, vars);
      var b :- GetValue(rhs, vars);
      Ok(a == b)
    case MoreThan(lhs, rhs) =>
      var a :- GetValue(lhs, vars);
      var b :- GetValue(rhs, vars);
      Ok(a > b)
  }

  // ---------------------------------------------------------------- recognisers

  /** The text before the `:` of a dialogue line: the speaker, or nothing. */
  function SpeakerName(speaker: Option<string>): string {
    if speaker.Some? then speaker.value else ""
  }

  /** `parse_relation_entity`: a literal exactly when the token parses as an `i32`. */
  function ParseRelationEntity(s: string): (r: RelationEntity)
    ensures r.Number? <==> ParseI32(s).Some?
    ensures r.Number? ==> ParseI32(s) == Some(r.n)
    ensures r.Variable? ==> r.name == s
  {
    match ParseI32(s)
    case Some(n) => Number(n)
    case None => Variable(s)
  }

  const IfPrefix: string := "if "

  /** `parse_if`: lines starting with `if ` are conditions. The rest splits on
      whitespace: one word is an `IsSet`; three words with `=` or `>` in the
      middle are a comparison; any other symbol or word count is an error. */
  function ParseIf(s: string): (r: Option<Result<Statement, ParseError>>)
    ensures r.Some? <==> StartsWith(s, IfPrefix)
    ensures r.Some? && r.value.Ok? ==> r.value.value.If?
    ensures r.Some? ==>
              var parts := SplitWhitespace(s[|IfPrefix|..]);
              && (|parts| == 1 <==> r.value.Ok? && r.value.value.cond.IsSet?)
              && (|parts| != 1 && |parts| != 3 <==> r.value.Err? && r.value.error.IfFailed? && r.value.error.cause.InvalidAmountOfParts?)
              && (r.value.Err? && r.value.error.IfFailed? && r.value.error.cause.InvalidAmountOfParts? ==> r.value.error.cause.count == |parts|)
              && (|parts| == 3 ==> (r.value.Ok? <==> parts[1] == "=" || parts[1] == ">"))
              && (r.value.Err? && r.value.error.IfFailed? && r.value.error.cause.InvalidComparisonSymbol? ==> |parts| == 3 && r.value.error.cause.symbol == parts[1])
    ensures r.Some? ==> r.value.Ok? || r.value.error.IfFailed?
    ensures r.Some? ==>
              var parts := SplitWhitespace(s[|IfPrefix|..]);
              && (|parts| == 1 ==> r.value == Ok(If(IsSet(parts[0]))))
              && (|parts| == 3 && parts[1] == "=" ==>
                    r.value == Ok(If(Equals(ParseRelationEntity(parts[0]), ParseRelationEntity(parts[2])))))
              && (|parts| == 3 && parts[1] == ">" ==>
                    r.value == Ok(If(MoreThan(ParseRelationEntity(parts[0]), ParseRelationEntity(parts[2])))))
  {
    match StripPrefix(s, IfPrefix)
    case None => None
    case Some(rest) =>
      var parts := SplitWhitespace(rest);
      Some(
        if |parts| == 1 then Ok(If(IsSet(parts[0])))
        else if |parts| == 3 then
          var lhs := ParseRelationEntity(parts[0]);
          var rhs := ParseRelationEntity(parts[2]);
          if parts[1] == "=" then Ok(If(Equals(lhs, rhs)))
          else if parts[1] == ">" then Ok(If(MoreThan(lhs, rhs)))
          else Err(IfFailed(InvalidComparisonSymbol(parts[1])))
        else Err(IfFailed(InvalidAmountOfParts(|parts|))))
  }

  /** `parse_choice`: a line between `[` and `]` lists options separated by
      `/`, each trimmed; k slashes give k + 1 options. */
  function ParseChoice(s: string): (r: Option<Result<Statement, ParseError>>)
    ensures r.Some? <==> |s| >= 2 && s[0] == '[' && s[|s| - 1] == ']'
    ensures r.Some? ==> r.value.Ok? && r.value.value.Choice?
    ensures r.Some? ==>
              var inner := s[1..|s| - 1];
              var options := r.value.value.options;
              && |options| == multiset(inner)['/'] + 1
              && |options| == |Split(inner, '/')|
              && forall k | 0 <= k < |options| :: options[k] == Trim(Split(inner, '/')[k])
  {
    if |s| > 0 && s[0] == '[' && s[|s| - 1] == ']' then
      var pieces := Split(s[1..|s| - 1], '/');
      SplitCount(s[1..|s| - 1], '/');
      Some(Ok(Choice(TrimAll(pieces))))
    else None
  }

  /** Every piece trimmed, in order. */
  function TrimAll(pieces: seq<string>): (r: seq<string>)
    ensures |r| == |pieces|
    ensures forall k | 0 <= k < |pieces| :: r[k] == Trim(pieces[k])
  {
    seq(|pieces|, k requires 0 <= k < |pieces| => Trim(pieces[k]))
  }

  /** `parse_text`: any line with a `:` is a line of dialogue. The speaker is
      what precedes the first `:` (none when that is empty); the content is
      what follows it, leading whitespace dropped. */
  function ParseText(s: string): (r: Option<Result<Statement, ParseError>>)
    ensures r.Some? <==> ':' in s
    ensures r.Some? ==> r.value.Ok? && r.value.value.Text? && r.value.value.speaker != Some("")
    ensures r.Some? ==>
              var name := SpeakerName(r.value.value.speaker);
              && ':' !in name
              && |name| < |s|
              && s == name + [':'] + s[|name| + 1..]
              && r.value.value.content == TrimStart(s[|name| + 1..])
  {
    match IndexOf(s, ':')
    case None => None
    case Some(i) =>
      var speaker := if i == 0 then None else Some(s[..i]);
      assert SpeakerName(speaker) == s[..i];
      assert s == s[..i] + [':'] + s[i + 1..];
      Some(Ok(Text(speaker, TrimStart(s[i + 1..]))))
  }

  /** `parse_play_sound`: `play <name> [<channel>]`, pieces taken between
      single spaces; `play` with nothing after it is no match. */
  function ParsePlaySound(s: string): (r: Option<Result<Statement, ParseError>>)
    ensures r.Some? <==> Split(s, ' ')[0] == "play" && |Split(s, ' ')| >= 2
    ensures r.Some? ==> r.value.Ok? && r.value.value.PlaySound?
    ensures r.Some? ==> ' ' !in r.value.value.name
    ensures r.Some? && r.value.value.channel.Some? ==> ' ' !in r.value.value.channel.value
    ensures r.Some? ==> var p := Split(s, ' ');
              r.value == Ok(PlaySound(p[1], if |p| >= 3 then Some(p[2]) else None))
  {
    var pieces := Split(s, ' ');
    if pieces[0] == "play" && |pieces| >= 2 then
      Some(Ok(PlaySound(pieces[1], if |pieces| >= 3 then Some(pieces[2]) else None)))
    else None
  }

  /** `parse_load_background`: `scene <name>`; a bare `scene` is no match. */
  function ParseLoadBackground(s: string): (r: Option<Result<Statement, ParseError>>)
    ensures r.Some? <==> Split(s, ' ')[0] == "scene" && |Split(s, ' ')| >= 2
    ensures r.Some? ==> r.value.Ok? && r.value.value.LoadBackground? && ' ' !in r.value.value.name
    ensures r.Some? ==> r.value == Ok(LoadBackground(Split(s, ' ')[1]))
  {
    var pieces := Split(s, ' ');
    if pieces[0] == "scene" && |pieces| >= 2 then Some(Ok(LoadBackground(pieces[1]))) else None
  }

  /** `parse_load_character`: `load <character> <expression> at <placement>`;
      any missing piece, or a fourth piece other than `at`, is no match. */
  function ParseLoadCharacter(s: string): (r: Option<Result<Statement, ParseError>>)
    ensures r.Some? <==> var p := Split(s, ' '); |p| >= 5 && p[0] == "load" && p[3] == "at"
    ensures r.Some? ==> r.value.Ok? && r.value.value.LoadCharacter?
    ensures r.Some? ==> var st := r.value.value;
              ' ' !in st.character && ' ' !in st.expression && ' ' !in st.placement
    ensures r.Some? ==> var p := Split(s, ' ');
              r.value == Ok(LoadCharacter(p[1], p[2], p[4]))
  {
    var pieces := Split(s, ' ');
    if pieces[0] == "load" && |pieces| >= 5 && pieces[3] == "at" then
      Some(Ok(LoadCharacter(pieces[1], pieces[2], pieces[4])))
    else None
  }

  /** The keyword recognisers in terms of the line's text: `play` and `scene`
      match exactly the lines that start with the keyword and a space, and
      `load` only such lines. */
  lemma KeywordPrefixes(s: string)
    ensures ParsePlaySound(s).Some? <==> StartsWith(s, "play ")
    ensures ParseLoadBackground(s).Some? <==> StartsWith(s, "scene ")
    ensures ParseLoadCharacter(s).Some? ==> StartsWith(s, "load ")
  {
    FirstPieceIsPrefix(s, "play");
    FirstPieceIsPrefix(s, "scene");
    FirstPieceIsPrefix(s, "load");
  }

  /** The first space-separated piece is `word` and more pieces follow exactly
      when the line starts with `word` and a space. */
  lemma FirstPieceIsPrefix(s: string, word: string)
    requires ' ' !in word
    ensures (Split(s, ' ')[0] == word && |Split(s, ' ')| >= 2) <==> StartsWith(s, word + " ")
  {
    var pieces := Split(s, ' ');
    if StartsWith(s, word + " ") {
      var rest := s[|word| + 1..];
      assert s == word + [' '] + rest;
      SplitCons(word, ' ', rest);
    } else {
      match IndexOf(s, ' ')
      case None =>
      case Some(i) =>
        assert s == s[..i] + [' '] + s[i + 1..];
        SplitCons(s[..i], ' ', s[i + 1..]);
        assert s[..i + 1] == s[..i] + " ";
    }
  }

  // ---------------------------------------------------------------- lines

  /** What one line contributes: nothing, a statement, or an error. */
  datatype LineResult = Blank | Parsed(statement: Statement) | Failed(error: ParseError)

  /** The recognisers in the order the driver tries them; the first that
      matches decides. Only the condition recogniser can fail, and any line
      with a `:` is matched by one of them. */
  function Recognise(line: string): (r: Option<Result<Statement, ParseError>>)
    ensures r.Some? && r.value.Err? ==> StartsWith(line, IfPrefix) && r.value.error.IfFailed?
    ensures StartsWith(line, IfPrefix) ==> r.Some? && (r.value.Ok? ==> r.value.value.If?)
    ensures r.Some? && r.value.Ok? && r.value.value.If? ==> StartsWith(line, IfPrefix)
    ensures ':' in line ==> r.Some?
    ensures ParseIf(line).Some? ==> r == ParseIf(line)
    ensures ParseIf(line).None? && ParseChoice(line).Some? ==> r == ParseChoice(line)
    ensures ParseIf(line).None? && ParseChoice(line).None? && ParseLoadCharacter(line).Some?
            ==> r == ParseLoadCharacter(line)
    ensures ParseIf(line).None? && ParseChoice(line).None? && ParseLoadCharacter(line).None?
            && ParseLoadBackground(line).Some?
            ==> r == ParseLoadBackground(line)
    ensures ParseIf(line).None? && ParseChoice(line).None? && ParseLoadCharacter(line).None?
            && ParseLoadBackground(line).None? && ParsePlaySound(line).Some?
            ==> r == ParsePlaySound(line)
    ensures ParseIf(line).None? && ParseChoice(line).None? && ParseLoadCharacter(line).None?
            && ParseLoadBackground(line).None? && ParsePlaySound(line).None?
            ==> r == ParseText(line)
    ensures r.None? <==>
              && ParseIf(line).None? && ParseChoice(line).None? && ParseLoadCharacter(line).None?
              && ParseLoadBackground(line).None? && ParsePlaySound(line).None? && ParseText(line).None?
  {
    var asIf := ParseIf(line);
    if asIf.Some? then asIf
    else
      var asChoice := ParseChoice(line);
      if asChoice.Some? then asChoice
      else
        var asLoad := ParseLoadCharacter(line);
        if asLoad.Some? then asLoad
        else
          var asScene := ParseLoadBackground(line);
          if asScene.Some? then asScene
          else
            var asPlay := ParsePlaySound(line);
            if asPlay.Some? then asPlay
            else ParseText(line)
  }

  /** No recogniser claims the bare words `end` and `else`. */
  lemma KeywordsAreNotRecognised()
    ensures Recognise("end").None? && Recognise("else").None?
  {
    assert !StartsWith("end", IfPrefix) by { assert "end"[0] != IfPrefix[0]; }
    assert !StartsWith("else", IfPrefix) by { assert "else"[0] != IfPrefix[0]; }
    assert Split("end", ' ') == ["end"] by { assert IndexOf("end", ' ').None?; }
    assert Split("else", ' ') == ["else"] by { assert IndexOf("else", ' ').None?; }
    assert ':' !in "end";
    assert ':' !in "else";
  }

  /** The order decides between recognisers that would both match: a
      bracketed line with a `:` is a choice, not dialogue. */
  lemma ChoiceBeforeText()
    ensures Recognise("[a: b]") == Some(Ok(Choice(["a: b"])))
  {
    var line, inner := "[a: b]", "a: b";
    assert line[1..|line| - 1] == inner;
    assert !StartsWith(line, IfPrefix) by { assert line[0] != IfPrefix[0]; }
    assert Split(inner, '/') == [inner] by { assert IndexOf(inner, '/').None?; }
    TrimmedIsFixed(inner);
    assert TrimAll([inner]) == [inner];
  }

  /** One line as the driver reads it: blank after `trim_start` is skipped;
      otherwise the first recogniser that matches decides; then the exact
      words `end` and `else`; anything else is unknown syntax. */
  function ParseLine(raw: string): (r: LineResult)
    ensures r.Blank? <==> forall i | 0 <= i < |raw| :: IsWhitespace(raw[i])
    ensures var t := TrimStart(raw);
            && (StartsWith(t, IfPrefix) ==> (r.Parsed? && r.statement.If?) || (r.Failed? && r.error.IfFailed?))
            && ((r.Parsed? && r.statement.If?) || (r.Failed? && r.error.IfFailed?) ==> StartsWith(t, IfPrefix))
            && (r.Failed? && r.error.UnknownSyntax? ==>
                  && r.error.text == t
                  && !StartsWith(t, IfPrefix) && ':' !in t
                  && t != "end" && t != "else")
            && (':' in t ==> !r.Blank? && (r.Failed? ==> r.error.IfFailed?))
    ensures var t := TrimStart(raw);
            |t| > 0 && Recognise(t).Some? ==>
              r == (if Recognise(t).value.Ok? then Parsed(Recognise(t).value.value) else Failed(Recognise(t).value.error))
    ensures var t := TrimStart(raw);
            |t| > 0 && Recognise(t).None? ==>
              r == (if t == "end" then Parsed(End) else if t == "else" then Parsed(Else) else Failed(UnknownSyntax(t)))
  {
    var t := TrimStart(raw);
    if |t| == 0 then Blank
    else
      match Recognise(t)
      case Some(Ok(statement)) => Parsed(statement)
      case Some(Err(e)) => Failed(e)
      case None =>
        if t == "end" then Parsed(End)
        else if t == "else" then Parsed(Else)
        else Failed(UnknownSyntax(t))
  }

  /** The bare words `end` and `else` close and split a conditional block. */
  lemma ParseLineKeywords(raw: string)
    ensures TrimStart(raw) == "end" ==> ParseLine(raw) == Parsed(End)
    ensures TrimStart(raw) == "else" ==> ParseLine(raw) == Parsed(Else)
  {
    KeywordsAreNotRecognised();
  }

  /** The outcome of every line, in order. */
  function Outcomes(lines: seq<string>): (r: seq<LineResult>)
    ensures |r| == |lines|
    ensures forall i | 0 <= i < |lines| :: r[i] == ParseLine(lines[i])
  {
    seq(|lines|, i requires 0 <= i < |lines| => ParseLine(lines[i]))
  }

  /** The outcomes of the first lines are the first outcomes. */
  lemma OutcomesPrefix(lines: seq<string>, n: nat)
    requires n <= |lines|
    ensures Outcomes(lines)[..n] == Outcomes(lines[..n])
  {
  }

  /** Statements of the parsed lines, in order (the successful outcome). */
  function StatementsOf(rs: seq<LineResult>): seq<Statement>
    decreases |rs|
  {
    if |rs| == 0 then []
    else
      StatementsOf(rs[..|rs| - 1])
        + match rs[|rs| - 1]
          case Parsed(statement) => [statement]
          case _ => []
  }

  /** Errors of all lines, in order, each with its 1-based line number. */
  function ErrorsOf(rs: seq<LineResult>): seq<LineError>
    decreases |rs|
  {
    if |rs| == 0 then []
    else
      ErrorsOf(rs[..|rs| - 1])
        + match rs[|rs| - 1]
          case Failed(e) => [LineError(|rs|, e)]
          case _ => []
  }

  /** `parse`: every statement in source order when no line failed, and
      otherwise every error, in line order — never a mixture of the two. */
  method Parse(lines: seq<string>) returns (r: Result<seq<Statement>, seq<LineError>>)
    ensures r.Ok? <==> forall i | 0 <= i < |lines| :: !ParseLine(lines[i]).Failed?
    ensures r.Ok? ==> r.value == StatementsOf(Outcomes(lines))
    ensures r.Err? ==> r.error == ErrorsOf(Outcomes(lines)) && |r.error| > 0
  {
    var outcomes := Outcomes(lines);
    var statements: seq<Statement> := [];
    var errors: seq<LineError> := [];
    var n := 0;
    while n < |outcomes|
      invariant 0 <= n <= |outcomes|
      invariant statements == StatementsOf(outcomes[..n])
      invariant errors == ErrorsOf(outcomes[..n])
    {
      CollectStep(outcomes, n);
      match outcomes[n] {
        case Blank =>
        case Parsed(statement) => statements := statements + [statement];
        case Failed(e) => errors := errors + [LineError(n + 1, e)];
      }
      n := n + 1;
    }
    assert outcomes[..|outcomes|] == outcomes;
    NoErrorsIffNoneFailed(outcomes);
    if |errors| > 0 {
      r := Err(errors);
    } else {
      r := Ok(statements);
    }
  }

  /** Taking one more line adds its statement or its error, nothing else. */
  lemma CollectStep(rs: seq<LineResult>, n: nat)
    requires n < |rs|
    ensures StatementsOf(rs[..n + 1]) == StatementsOf(rs[..n]) + (if rs[n].Parsed? then [rs[n].statement] else [])
    ensures ErrorsOf(rs[..n + 1]) == ErrorsOf(rs[..n]) + (if rs[n].Failed? then [LineError(n + 1, rs[n].error)] else [])
  {
    assert rs[..n + 1][..n] == rs[..n];
  }

  /** Lines that all parse give their statements, in order, and no error. */
  lemma {:induction false} CollectParsed(rs: seq<LineResult>, statements: seq<Statement>)
    requires |rs| == |statements|
    requires forall i | 0 <= i < |rs| :: rs[i] == Parsed(statements[i])
    ensures StatementsOf(rs) == statements
    ensures ErrorsOf(rs) == []
    decreases |rs|
  {
    if |rs| > 0 {
      var n := |rs| - 1;
      CollectParsed(rs[..n], statements[..n]);
      assert statements[..n] + [statements[n]] == statements;
    }
  }

  /** The error list is empty exactly when no line failed. */
  lemma {:induction false} NoErrorsIffNoneFailed(rs: seq<LineResult>)
    ensures ErrorsOf(rs) == [] <==> forall i | 0 <= i < |rs| :: !rs[i].Failed?
    decreases |rs|
  {
    if |rs| > 0 {
      var init := rs[..|rs| - 1];
      NoErrorsIffNoneFailed(init);
      assert forall i | 0 <= i < |init| :: init[i] == rs[i];
    }
  }
}
