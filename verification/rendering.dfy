/** The script text for each statement, written the way the line parser
    reads it back, and the proofs that it does: for every statement that has
    a well-formed line, parsing that line gives the statement again, and a
    script of such lines parses without errors into the same statements. */
module Rendering {
  import opened Results
  import opened Numbers
  import opened Strings
  import opened Parser

  // ---------------------------------------------------------------- which statements have a line

  /** A literal always has its decimal form; a variable name must be one word
      that does not read as a number, or it would come back as a literal. */
  predicate EntityRenderable(e: RelationEntity) {
    e.Number? || (IsWord(e.name) && ParseI32(e.name).None?)
  }

  predicate ConditionRenderable(c: Condition) {
    match c
    case IsSet(v) => IsWord(v)
    case Equals(lhs, rhs) => EntityRenderable(lhs) && EntityRenderable(rhs)
    case MoreThan(lhs, rhs) => EntityRenderable(lhs) && EntityRenderable(rhs)
  }

  /** A choice option survives the `/` split and the trim. */
  predicate OptionRenderable(o: string) {
    '/' !in o && (o == [] || (!IsWhitespace(o[0]) && !IsWhitespace(o[|o| - 1])))
  }

  /** A speaker name the text recogniser reads back, and that no earlier
      recogniser claims: no space, no `:`, not starting with whitespace or `[`. */
  predicate SpeakerRenderable(name: string) {
    |name| > 0 && ' ' !in name && ':' !in name && !IsWhitespace(name[0]) && name[0] != '['
  }

  predicate Renderable(st: Statement) {
    match st
    case If(c) => ConditionRenderable(c)
    case Else => true
    case End => true
    case Text(speaker, content) =>
      && (speaker.Some? ==> SpeakerRenderable(speaker.value))
      && (content == [] || !IsWhitespace(content[0]))
    case Choice(options) =>
      |options| > 0 && forall k | 0 <= k < |options| :: OptionRenderable(options[k])
    case LoadCharacter(character, expression, placement) =>
      ' ' !in character && ' ' !in expression && ' ' !in placement
    case LoadBackground(name) => ' ' !in name
    case PlaySound(name, channel) => ' ' !in name && (channel.Some? ==> ' ' !in channel.value)
  }

  // ---------------------------------------------------------------- the text

  function RenderEntity(e: RelationEntity): string {
    match e
    case Number(n) => I32ToString(n)
    case Variable(name) => name
  }

  /** What follows `if `: one word, or two operands around the symbol. */
  function RenderCondition(c: Condition): string {
    match c
    case IsSet(v) => v
    case Equals(lhs, rhs) => Join([RenderEntity(lhs), "=", RenderEntity(rhs)], ' ')
    case MoreThan(lhs, rhs) => Join([RenderEntity(lhs), ">", RenderEntity(rhs)], ' ')
  }

  /** The line for a statement. Keyword lines are their words joined by
      single spaces; dialogue is `speaker: content`. */
  function Render(st: Statement): string {
    match st
    case If(c) => IfPrefix + RenderCondition(c)
    case Else => "else"
    case End => "end"
    case Text(speaker, content) => SpeakerName(speaker) + [':'] + ([' '] + content)
    case Choice(options) => ['['] + Join(options, '/') + [']']
    case LoadCharacter(character, expression, placement) =>
      Join(["load", character, expression, "at", placement], ' ')
    case LoadBackground(name) => Join(["scene", name], ' ')
    case PlaySound(name, None) => Join(["play", name], ' ')
    case PlaySound(name, Some(channel)) => Join(["play", name, channel], ' ')
  }

  function RenderScript(statements: seq<Statement>): (lines: seq<string>)
    ensures |lines| == |statements|
    ensures forall i | 0 <= i < |statements| :: lines[i] == Render(statements[i])
  {
    seq(|statements|, i requires 0 <= i < |statements| => Render(statements[i]))
  }

  // ---------------------------------------------------------------- operands

  /** The decimal form of an `i32` is one word. */
  lemma FormattedIsWord(n: i32)
    ensures IsWord(I32ToString(n))
  {
    var s := I32ToString(n);
    if n < 0 {
      var digits := NatToString(-(n as int));
      assert s == "-" + digits;
      forall j | 0 <= j < |s|
        ensures !IsWhitespace(s[j])
      {
        if j > 0 {
          assert s[j] == digits[j - 1];
        }
      }
    }
  }

  /** An operand's text is one word and reads back as the same operand. */
  lemma EntityRoundTrip(e: RelationEntity)
    requires EntityRenderable(e)
    ensures IsWord(RenderEntity(e))
    ensures ParseRelationEntity(RenderEntity(e)) == e
  {
    if e.Number? {
      FormattedIsWord(e.n);
      ParseFormatRoundTrip(e.n);
    }
  }

  // ---------------------------------------------------------------- line shapes

  /** A line whose first character is not whitespace is its own `trim_start`. */
  lemma NoLeadingBlank(s: string)
    requires |s| > 0 && !IsWhitespace(s[0])
    ensures TrimStart(s) == s
  {
  }

  /** A line that differs from a prefix in its first character lacks it. */
  lemma NotPrefix(s: string, prefix: string)
    requires |s| > 0 && |prefix| > 0 && s[0] != prefix[0]
    ensures !StartsWith(s, prefix)
  {
    if |prefix| <= |s| {
      assert s[..|prefix|][0] != prefix[0];
    }
  }

  /** A joined line starts with the first character of its first word. */
  lemma JoinHead(parts: seq<string>, sep: char)
    requires |parts| > 0 && |parts[0]| > 0
    ensures |Join(parts, sep)| > 0 && Join(parts, sep)[0] == parts[0][0]
  {
  }

  /** A keyword line: not a condition, not a choice, and its first
      space-separated piece is the keyword. */
  lemma KeywordLine(words: seq<string>)
    requires |words| > 0 && |words[0]| > 0
    requires words[0][0] != 'i' && words[0][0] != '[' && !IsWhitespace(words[0][0])
    requires forall k | 0 <= k < |words| :: ' ' !in words[k]
    ensures var line := Join(words, ' ');
            && TrimStart(line) == line
            && ParseIf(line).None? && ParseChoice(line).None?
            && Split(line, ' ') == words
  {
    var line := Join(words, ' ');
    JoinHead(words, ' ');
    NoLeadingBlank(line);
    NotPrefix(line, IfPrefix);
    SplitJoin(words, ' ');
  }

  // ---------------------------------------------------------------- one recogniser per kind

  lemma IsSetLine(v: string)
    requires IsWord(v)
    ensures ParseIf(IfPrefix + v) == Some(Ok(If(IsSet(v))))
  {
    var line := IfPrefix + v;
    assert line[|IfPrefix|..] == v;
    assert StripPrefix(line, IfPrefix) == Some(v);
    SplitWhitespaceOfWord(v);
  }

  /** `if a = b` and `if a > b` read back as the comparison of the operands. */
  lemma ComparisonLine(lhs: RelationEntity, symbol: string, rhs: RelationEntity)
    requires EntityRenderable(lhs) && EntityRenderable(rhs)
    requires symbol == "=" || symbol == ">"
    ensures var line := IfPrefix + Join([RenderEntity(lhs), symbol, RenderEntity(rhs)], ' ');
            ParseIf(line) == Some(Ok(If(if symbol == "=" then Equals(lhs, rhs) else MoreThan(lhs, rhs))))
  {
    EntityRoundTrip(lhs);
    EntityRoundTrip(rhs);
    var words := [RenderEntity(lhs), symbol, RenderEntity(rhs)];
    var rest := Join(words, ' ');
    var line := IfPrefix + rest;
    assert line[|IfPrefix|..] == rest;
    assert StripPrefix(line, IfPrefix) == Some(rest);
    SplitWhitespaceJoin(words);
    var parts := SplitWhitespace(rest);
    assert parts[0] == RenderEntity(lhs) && parts[2] == RenderEntity(rhs);
    assert parts[1] == symbol;
  }

  lemma RecogniseIf(c: Condition)
    requires ConditionRenderable(c)
    ensures TrimStart(Render(If(c))) == Render(If(c))
    ensures Recognise(Render(If(c))) == Some(Ok(If(c)))
  {
    NoLeadingBlank(Render(If(c)));
    match c
    case IsSet(v) => IsSetLine(v);
    case Equals(lhs, rhs) => ComparisonLine(lhs, "=", rhs);
    case MoreThan(lhs, rhs) => ComparisonLine(lhs, ">", rhs);
  }

  /** Every option is already trimmed, so trimming changes none. */
  lemma TrimAllFixed(options: seq<string>)
    requires forall k | 0 <= k < |options| :: OptionRenderable(options[k])
    ensures TrimAll(options) == options
  {
    forall k | 0 <= k < |options|
      ensures TrimAll(options)[k] == options[k]
    {
      TrimmedIsFixed(options[k]);
    }
  }

  lemma ChoiceInner(inner: string)
    ensures ParseChoice(['['] + inner + [']']) == Some(Ok(Choice(TrimAll(Split(inner, '/')))))
  {
    var line := ['['] + inner + [']'];
    assert line[1..|line| - 1] == inner;
  }

  lemma RecogniseChoice(options: seq<string>)
    requires Renderable(Choice(options))
    ensures TrimStart(Render(Choice(options))) == Render(Choice(options))
    ensures Recognise(Render(Choice(options))) == Some(Ok(Choice(options)))
  {
    var line := Render(Choice(options));
    NoLeadingBlank(line);
    NotPrefix(line, IfPrefix);
    ChoiceInner(Join(options, '/'));
    SplitJoin(options, '/');
    TrimAllFixed(options);
  }

  /** Which keyword recognisers a line's first space-separated piece rules out. */
  lemma FirstPieceRulesOut(line: string)
    ensures Split(line, ' ')[0] != "load" ==> ParseLoadCharacter(line).None?
    ensures Split(line, ' ')[0] != "scene" ==> ParseLoadBackground(line).None?
    ensures Split(line, ' ')[0] != "play" ==> ParsePlaySound(line).None?
  {
  }

  lemma RecogniseLoadCharacter(character: string, expression: string, placement: string)
    requires Renderable(LoadCharacter(character, expression, placement))
    ensures var line := Render(LoadCharacter(character, expression, placement));
            && TrimStart(line) == line
            && Recognise(line) == Some(Ok(LoadCharacter(character, expression, placement)))
  {
    var line := Render(LoadCharacter(character, expression, placement));
    KeywordLine(["load", character, expression, "at", placement]);
    assert ParseLoadCharacter(line) == Some(Ok(LoadCharacter(character, expression, placement)));
  }

  /** A `scene` line is none of the recognisers tried before it. */
  lemma SceneLine(name: string)
    requires ' ' !in name
    ensures var line := Join(["scene", name], ' ');
            && TrimStart(line) == line
            && ParseIf(line).None? && ParseChoice(line).None? && ParseLoadCharacter(line).None?
            && ParseLoadBackground(line) == Some(Ok(LoadBackground(name)))
  {
    var line := Join(["scene", name], ' ');
    KeywordLine(["scene", name]);
    assert "scene" != "load";
    FirstPieceRulesOut(line);
  }

  lemma RecogniseLoadBackground(name: string)
    requires Renderable(LoadBackground(name))
    ensures TrimStart(Render(LoadBackground(name))) == Render(LoadBackground(name))
    ensures Recognise(Render(LoadBackground(name))) == Some(Ok(LoadBackground(name)))
  {
    SceneLine(name);
  }

  /** A `play` line is none of the recognisers tried before it. */
  lemma PlayLine(words: seq<string>)
    requires 2 <= |words| <= 3 && words[0] == "play"
    requires forall k | 0 <= k < |words| :: ' ' !in words[k]
    ensures var line := Join(words, ' ');
            && TrimStart(line) == line
            && ParseIf(line).None? && ParseChoice(line).None?
            && ParseLoadCharacter(line).None? && ParseLoadBackground(line).None?
            && ParsePlaySound(line) == Some(Ok(PlaySound(words[1], if |words| == 3 then Some(words[2]) else None)))
  {
    var line := Join(words, ' ');
    KeywordLine(words);
    assert "play" != "load" && "play" != "scene";
    FirstPieceRulesOut(line);
  }

  lemma RecognisePlaySound(name: string, channel: Option<string>)
    requires Renderable(PlaySound(name, channel))
    ensures TrimStart(Render(PlaySound(name, channel))) == Render(PlaySound(name, channel))
    ensures Recognise(Render(PlaySound(name, channel))) == Some(Ok(PlaySound(name, channel)))
  {
    match channel
    case None => PlayLine(["play", name]);
    case Some(c) => PlayLine(["play", name, c]);
  }

  /** A line that does not open with `if ` or `[` is neither a condition nor
      a choice. */
  lemma NeitherConditionNorChoice(line: string)
    requires |line| > 0 && line[0] != '['
    requires |line| >= 3 ==> line[0] != 'i' || line[1] != 'f' || line[2] != ' '
    ensures ParseIf(line).None? && ParseChoice(line).None?
  {
    if |line| >= 3 {
      assert line[..3] != IfPrefix by {
        assert line[..3][0] == line[0] && line[..3][1] == line[1] && line[..3][2] == line[2];
      }
    }
  }

  /** A line of dialogue is no condition and no choice: a `:` comes before
      any space, and the speaker never starts with `[`. */
  lemma TextIsNoCondition(speaker: Option<string>, content: string)
    requires Renderable(Text(speaker, content))
    ensures var line := Render(Text(speaker, content));
            && TrimStart(line) == line && ParseIf(line).None? && ParseChoice(line).None?
  {
    var name := SpeakerName(speaker);
    var line := Render(Text(speaker, content));
    assert line == name + [':'] + ([' '] + content);
    assert forall j | 0 <= j < |name| :: line[j] == name[j];
    assert line[|name|] == ':';
    assert line[0] == if |name| == 0 then ':' else name[0];
    NoLeadingBlank(line);
    NeitherConditionNorChoice(line);
  }

  /** The first space-separated piece of a line of dialogue ends in `:`, so
      it is no keyword line. */
  lemma TextIsNoKeywordLine(speaker: Option<string>, content: string)
    requires Renderable(Text(speaker, content))
    ensures var line := Render(Text(speaker, content));
            && ParseLoadCharacter(line).None? && ParseLoadBackground(line).None? && ParsePlaySound(line).None?
  {
    var head := SpeakerName(speaker) + [':'];
    var line := Render(Text(speaker, content));
    assert line == head + [' '] + content;
    SplitCons(head, ' ', content);
    assert Split(line, ' ')[0] == head;
    assert head[|head| - 1] == ':';
    assert head != "load" && head != "scene" && head != "play";
    FirstPieceRulesOut(line);
  }

  /** One blank before the content is dropped by `trim_start`. */
  lemma SkipOneBlank(content: string)
    requires content == [] || !IsWhitespace(content[0])
    ensures TrimStart([' '] + content) == content
  {
    assert ([' '] + content)[1..] == content;
  }

  lemma TextLine(speaker: Option<string>, content: string)
    requires Renderable(Text(speaker, content))
    ensures ParseText(Render(Text(speaker, content))) == Some(Ok(Text(speaker, content)))
  {
    var name := SpeakerName(speaker);
    var rest := [' '] + content;
    var line := Render(Text(speaker, content));
    assert line == name + [':'] + rest;
    IndexOfAfterPrefix(name, ':', rest);
    assert line[..|name|] == name;
    assert line[|name| + 1..] == rest;
    SkipOneBlank(content);
    assert speaker == if |name| == 0 then None else Some(name);
  }

  lemma RecogniseText(speaker: Option<string>, content: string)
    requires Renderable(Text(speaker, content))
    ensures TrimStart(Render(Text(speaker, content))) == Render(Text(speaker, content))
    ensures Recognise(Render(Text(speaker, content))) == Some(Ok(Text(speaker, content)))
  {
    TextIsNoCondition(speaker, content);
    TextIsNoKeywordLine(speaker, content);
    TextLine(speaker, content);
  }

  lemma KeywordsRoundTrip()
    ensures ParseLine(Render(End)) == Parsed(End)
    ensures ParseLine(Render(Else)) == Parsed(Else)
  {
    assert Render(End) == "end" && Render(Else) == "else";
    EndRoundTrip();
    ElseRoundTrip();
  }

  lemma EndRoundTrip()
    ensures ParseLine("end") == Parsed(End)
  {
    NoLeadingBlank("end");
    ParseLineKeywords("end");
  }

  lemma ElseRoundTrip()
    ensures ParseLine("else") == Parsed(Else)
  {
    NoLeadingBlank("else");
    ParseLineKeywords("else");
  }

  // ---------------------------------------------------------------- round trips

  /** A line that is its own `trim_start` and that a recogniser accepts
      parses to that recogniser's statement. */
  lemma Accepted(line: string, st: Statement)
    requires |line| > 0 && TrimStart(line) == line
    requires Recognise(line) == Some(Ok(st))
    ensures ParseLine(line) == Parsed(st)
  {
  }

  /** Every statement with a line reads back from that line unchanged. */
  lemma ParseRender(st: Statement)
    requires Renderable(st)
    ensures ParseLine(Render(st)) == Parsed(st)
  {
    var line := Render(st);
    match st
    case Else => KeywordsRoundTrip();
    case End => KeywordsRoundTrip();
    case If(c) =>
      RecogniseIf(c);
      Accepted(line, st);
    case Choice(options) =>
      RecogniseChoice(options);
      Accepted(line, st);
    case LoadCharacter(character, expression, placement) =>
      RecogniseLoadCharacter(character, expression, placement);
      Accepted(line, st);
    case LoadBackground(name) =>
      RecogniseLoadBackground(name);
      Accepted(line, st);
    case PlaySound(name, channel) =>
      RecognisePlaySound(name, channel);
      Accepted(line, st);
    case Text(speaker, content) =>
      RecogniseText(speaker, content);
      Accepted(line, st);
  }

  /** A script written one statement per line parses back, without errors,
      into the same statements in the same order. */
  lemma ParseRenderScript(statements: seq<Statement>)
    requires forall i | 0 <= i < |statements| :: Renderable(statements[i])
    ensures StatementsOf(Outcomes(RenderScript(statements))) == statements
    ensures ErrorsOf(Outcomes(RenderScript(statements))) == []
  {
    var rs := Outcomes(RenderScript(statements));
    forall i | 0 <= i < |rs|
      ensures rs[i] == Parsed(statements[i])
    {
      ParseRender(statements[i]);
    }
    CollectParsed(rs, statements);
  }
}
