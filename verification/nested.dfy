/** The repository's two tests with nested blocks, step by step: an `if`
    inside an `if`, which leaves two scopes on the way out, and a choice
    inside a chosen arm, recorded in the inner scope only. */
module NestedScenarios {
  import opened Results
  import opened Numbers
  import opened Conditions
  import opened NovelScript
  import opened Walkthrough
  import opened Scenarios

  // ---------------------------------------------------------------- nested if

  function InnerIf(): SceneNode {
    IfThen(VarEquals("num2", 17), [Line(None, "second")])
  }

  function OuterBody(): seq<SceneNode> {
    [Line(None, "first"), InnerIf()]
  }

  function NestedIfScene(): seq<SceneNode> {
    [IfThen(VarEquals("num", 13), OuterBody())]
  }

  function NestedIfNovel(): Novel {
    AddNodes(NewNovel(), "test", NestedIfScene())
  }

  /** The variables once both are set and the walker has published `choice`. */
  function NestedVars(): map<string, i32> {
    map["num" := 13, "num2" := 17, ChoiceKey := 0]
  }

  /** `set_variable("num", 13)` then `set_variable("num2", 17)` on a fresh cursor. */
  lemma BothVariablesSet()
    ensures var st := SetVariable(NewState(NestedIfNovel(), "test"), "num", 13);
            && st.Ok?
            && SetVariable(st.value, "num2", 17) == Ok(NovelState("test", map["num" := 13, "num2" := 17], [DefaultScope]))
  {
    assert map[]["num" := 13] == map["num" := 13];
  }

  /** The outer `if` holds and its body is entered. */
  lemma OuterIfEntered()
    ensures Step(NestedIfNovel(), NovelState("test", map["num" := 13, "num2" := 17], [DefaultScope]))
              == Ok(Continue(NovelState("test", NestedVars(), [Scope(0, Some(First), 0), DefaultScope])))
  {
    var novel, root := NestedIfNovel(), NestedIfScene();
    assert novel.scenes["test"] == root;
    var st := NovelState("test", map["num" := 13, "num2" := 17], [DefaultScope]);
    var vars := NestedVars();
    assert st.variables[ChoiceKey := 0] == vars;
    assert Check(VarEquals("num", 13), vars) == Ok(true);
    assert Current(novel, st) == Some(root[0]);
    StepEntersArm(novel, st, VarEquals("num", 13), OuterBody(), [], None, First);
    assert SetInnermost(st.scopes, Scope(0, Some(First), 0)) + [DefaultScope] == [Scope(0, Some(First), 0), DefaultScope];
  }

  /** The outer body's first line comes out. */
  lemma FirstLineOut()
    ensures Step(NestedIfNovel(), NovelState("test", NestedVars(), [Scope(0, Some(First), 0), DefaultScope]))
              == Ok(Yield(Data(Text(None, "first")),
                          NovelState("test", NestedVars(), [Scope(0, Some(First), 0), Scope(0, None, 1)])))
  {
    var novel, root := NestedIfNovel(), NestedIfScene();
    assert novel.scenes["test"] == root;
    var scopes := [Scope(0, Some(First), 0), DefaultScope];
    assert ActiveBody(root, scopes) == Some(OuterBody());
    assert SetInnermost(scopes, Scope(0, None, 1)) == [Scope(0, Some(First), 0), Scope(0, None, 1)];
  }

  /** The inner `if`, the second node of the outer body, holds too. */
  lemma InnerIfEntered()
    ensures Step(NestedIfNovel(), NovelState("test", NestedVars(), [Scope(0, Some(First), 0), Scope(0, None, 1)]))
              == Ok(Continue(NovelState("test", NestedVars(),
                                        [Scope(0, Some(First), 0), Scope(0, Some(First), 1), DefaultScope])))
  {
    var novel, root := NestedIfNovel(), NestedIfScene();
    assert novel.scenes["test"] == root;
    var vars := NestedVars();
    var st := NovelState("test", vars, [Scope(0, Some(First), 0), Scope(0, None, 1)]);
    assert ActiveBody(root, st.scopes) == Some(OuterBody());
    assert Current(novel, st) == Some(InnerIf());
    assert vars[ChoiceKey := 0] == vars;
    assert Check(VarEquals("num2", 17), vars) == Ok(true);
    StepEntersArm(novel, st, VarEquals("num2", 17), [Line(None, "second")], [], None, First);
    assert SetInnermost(st.scopes, Scope(0, Some(First), 1)) + [DefaultScope]
        == [Scope(0, Some(First), 0), Scope(0, Some(First), 1), DefaultScope];
  }

  /** The inner body's line comes out. */
  lemma SecondLineOut()
    ensures Step(NestedIfNovel(), NovelState("test", NestedVars(), [Scope(0, Some(First), 0), Scope(0, Some(First), 1), DefaultScope]))
              == Ok(Yield(Data(Text(None, "second")),
                          NovelState("test", NestedVars(), [Scope(0, Some(First), 0), Scope(0, Some(First), 1), Scope(0, None, 1)])))
  {
    var novel, root := NestedIfNovel(), NestedIfScene();
    assert novel.scenes["test"] == root;
    var scopes := [Scope(0, Some(First), 0), Scope(0, Some(First), 1), DefaultScope];
    assert scopes[1..] == [Scope(0, Some(First), 1), DefaultScope];
    assert ActiveBody(OuterBody(), scopes[1..]) == Some([Line(None, "second")]);
    assert ActiveBody(root, scopes) == Some([Line(None, "second")]);
    assert SetInnermost(scopes, Scope(0, None, 1)) == [Scope(0, Some(First), 0), Scope(0, Some(First), 1), Scope(0, None, 1)];
  }

  /** The exhausted inner body is left: the outer body's position moves past the inner `if`. */
  lemma InnerBodyLeft()
    ensures Step(NestedIfNovel(), NovelState("test", NestedVars(), [Scope(0, Some(First), 0), Scope(0, Some(First), 1), Scope(0, None, 1)]))
              == Ok(Continue(NovelState("test", NestedVars(), [Scope(0, Some(First), 0), Scope(0, None, 2)])))
  {
    var novel, root := NestedIfNovel(), NestedIfScene();
    assert novel.scenes["test"] == root;
    var scopes := [Scope(0, Some(First), 0), Scope(0, Some(First), 1), Scope(0, None, 1)];
    assert scopes[1..] == [Scope(0, Some(First), 1), Scope(0, None, 1)];
    assert ActiveBody(OuterBody(), scopes[1..]) == Some([Line(None, "second")]);
    assert ActiveBody(root, scopes) == Some([Line(None, "second")]);
    var outer: Scopes := scopes[..2];
    assert outer == [Scope(0, Some(First), 0), Scope(0, Some(First), 1)];
    assert SetInnermost(outer, Scope(0, None, 2)) == [Scope(0, Some(First), 0), Scope(0, None, 2)];
  }

  /** Then the exhausted outer body is left, past the outer `if`. */
  lemma OuterBodyLeft()
    ensures Step(NestedIfNovel(), NovelState("test", NestedVars(), [Scope(0, Some(First), 0), Scope(0, None, 2)]))
              == Ok(Continue(NovelState("test", NestedVars(), [Scope(0, None, 1)])))
  {
    var novel, root := NestedIfNovel(), NestedIfScene();
    assert novel.scenes["test"] == root;
    var scopes := [Scope(0, Some(First), 0), Scope(0, None, 2)];
    assert ActiveBody(root, scopes) == Some(OuterBody());
    var outer: Scopes := scopes[..1];
    assert outer == [Scope(0, Some(First), 0)];
    assert SetInnermost(outer, Scope(0, None, 1)) == [Scope(0, None, 1)];
  }

  /** Past the only top-level node the scene is over. */
  lemma NestedSceneEnds()
    ensures Step(NestedIfNovel(), NovelState("test", NestedVars(), [Scope(0, None, 1)]))
              == Ok(Finished(NovelState("test", NestedVars(), [Scope(0, None, 1)])))
  {
    assert NestedIfNovel().scenes["test"] == NestedIfScene();
  }

  /** `if num = 13` / `_: first` / `if num2 = 17` / `_: second` / `end` / `end`
      with both variables set: `first`, then `second`, then the end of the
      scene, which takes leaving both bodies. */
  lemma NestedIfYieldsBothLines()
    ensures var novel := NestedIfNovel();
            var st := SetVariable(NewState(novel, "test"), "num", 13);
            && st.Ok? && SetVariable(st.value, "num2", 17).Ok?
            && var st0 := SetVariable(st.value, "num2", 17).value;
            && var a := Next(novel, st0, 2);
            && a.Ok? && a.value.0 == Some(Data(Text(None, "first")))
            && var b := Next(novel, a.value.1, 2);
            && b.Ok? && b.value.0 == Some(Data(Text(None, "second")))
            && Next(novel, b.value.1, 3) == Ok((None, NovelState("test", NestedVars(), [Scope(0, None, 1)])))
  {
    BothVariablesSet();
    OuterIfEntered();
    FirstLineOut();
    InnerIfEntered();
    SecondLineOut();
    InnerBodyLeft();
    OuterBodyLeft();
    NestedSceneEnds();
  }

  // ---------------------------------------------------------------- nested choices

  function ChosenBody(): seq<SceneNode> {
    [Line(None, "first"), User(Data(Choice(["a", "b"])))]
  }

  function NestedChoiceScene(): seq<SceneNode> {
    [ User(Data(Choice(["x", "y"]))),
      IfThen(VarEquals("choice", 1), ChosenBody()),
      IfThen(VarEquals("choice", 2), [Line(None, "second")]) ]
  }

  function NestedChoiceNovel(): Novel {
    AddNodes(NewNovel(), "test", NestedChoiceScene())
  }

  lemma OuterChoiceShown()
    ensures Next(NestedChoiceNovel(), NewState(NestedChoiceNovel(), "test"), 1)
              == Ok((Some(Data(Choice(["x", "y"]))), NovelState("test", map[], [Scope(0, None, 1)])))
  {
    var novel, root := NestedChoiceNovel(), NestedChoiceScene();
    assert novel.scenes["test"] == root;
    var st0 := NewState(novel, "test");
    assert Current(novel, st0) == Some(root[0]);
    NextYieldsUserNode(novel, st0, Data(Choice(["x", "y"])), 1);
    assert Next(novel, st0, 1).value.1.scopes == [Scope(0, None, 1)];
  }

  /** With 1 recorded, the first `if` enters the arm holding the inner choice. */
  lemma ChosenArmEntered()
    ensures Step(NestedChoiceNovel(), NovelState("test", map[], [Scope(1, None, 1)]))
              == Ok(Continue(NovelState("test", map[ChoiceKey := 1], [Scope(1, Some(First), 1), DefaultScope])))
  {
    var novel, root := NestedChoiceNovel(), NestedChoiceScene();
    assert novel.scenes["test"] == root;
    var st := NovelState("test", map[], [Scope(1, None, 1)]);
    assert Current(novel, st) == Some(root[1]);
    assert map[][ChoiceKey := 1] == map[ChoiceKey := 1];
    FirstArmSelected();
    StepEntersArm(novel, st, VarEquals("choice", 1), ChosenBody(), [], None, First);
    assert SetInnermost(st.scopes, Scope(1, Some(First), 1)) + [DefaultScope] == [Scope(1, Some(First), 1), DefaultScope];
  }

  lemma ChosenLineOut()
    ensures Step(NestedChoiceNovel(), NovelState("test", map[ChoiceKey := 1], [Scope(1, Some(First), 1), DefaultScope]))
              == Ok(Yield(Data(Text(None, "first")),
                          NovelState("test", map[ChoiceKey := 1], [Scope(1, Some(First), 1), Scope(0, None, 1)])))
  {
    var novel, root := NestedChoiceNovel(), NestedChoiceScene();
    assert novel.scenes["test"] == root;
    var scopes := [Scope(1, Some(First), 1), DefaultScope];
    assert ActiveBody(root, scopes) == Some(ChosenBody());
    assert SetInnermost(scopes, Scope(0, None, 1)) == [Scope(1, Some(First), 1), Scope(0, None, 1)];
  }

  lemma InnerChoiceShown()
    ensures Step(NestedChoiceNovel(), NovelState("test", map[ChoiceKey := 1], [Scope(1, Some(First), 1), Scope(0, None, 1)]))
              == Ok(Yield(Data(Choice(["a", "b"])),
                          NovelState("test", map[ChoiceKey := 1], [Scope(1, Some(First), 1), Scope(0, None, 2)])))
  {
    var novel, root := NestedChoiceNovel(), NestedChoiceScene();
    assert novel.scenes["test"] == root;
    var scopes := [Scope(1, Some(First), 1), Scope(0, None, 1)];
    assert ActiveBody(root, scopes) == Some(ChosenBody());
    assert SetInnermost(scopes, Scope(0, None, 2)) == [Scope(1, Some(First), 1), Scope(0, None, 2)];
  }

  /** Recording the inner choice touches the inner scope only. */
  lemma InnerChoiceRecorded()
    ensures SetChoice(NovelState("test", map[ChoiceKey := 1], [Scope(1, Some(First), 1), Scope(0, None, 2)]), 1)
              == NovelState("test", map[ChoiceKey := 1], [Scope(1, Some(First), 1), Scope(1, None, 2)])
  {
    assert SetInnermost([Scope(1, Some(First), 1), Scope(0, None, 2)], Scope(1, None, 2))
        == [Scope(1, Some(First), 1), Scope(1, None, 2)];
  }

  /** The exhausted arm is left; the outer scope still holds its own choice. */
  lemma ChosenArmLeft()
    ensures Step(NestedChoiceNovel(), NovelState("test", map[ChoiceKey := 1], [Scope(1, Some(First), 1), Scope(1, None, 2)]))
              == Ok(Continue(NovelState("test", map[ChoiceKey := 1], [Scope(1, None, 2)])))
  {
    var novel, root := NestedChoiceNovel(), NestedChoiceScene();
    assert novel.scenes["test"] == root;
    var scopes := [Scope(1, Some(First), 1), Scope(1, None, 2)];
    assert ActiveBody(root, scopes) == Some(ChosenBody());
    var outer: Scopes := scopes[..1];
    assert outer == [Scope(1, Some(First), 1)];
    assert SetInnermost(outer, Scope(1, None, 2)) == [Scope(1, None, 2)];
  }

  /** The second `if` reads the outer scope's choice, 1, and is skipped. */
  lemma SecondArmSkipped()
    ensures Step(NestedChoiceNovel(), NovelState("test", map[ChoiceKey := 1], [Scope(1, None, 2)]))
              == Ok(Continue(NovelState("test", map[ChoiceKey := 1], [Scope(1, None, 3)])))
  {
    var novel, root := NestedChoiceNovel(), NestedChoiceScene();
    assert novel.scenes["test"] == root;
    var vars := map[ChoiceKey := 1];
    var st := NovelState("test", vars, [Scope(1, None, 2)]);
    assert Current(novel, st) == Some(root[2]);
    assert vars[ChoiceKey := 1] == vars;
    assert Check(VarEquals("choice", 2), vars) == Ok(false);
    StepSkipsIf(novel, st, VarEquals("choice", 2), [Line(None, "second")], [], None);
    assert SetInnermost(st.scopes, Scope(1, None, 3)) == [Scope(1, None, 3)];
  }

  lemma NestedChoiceSceneEnds()
    ensures Step(NestedChoiceNovel(), NovelState("test", map[ChoiceKey := 1], [Scope(1, None, 3)]))
              == Ok(Finished(NovelState("test", map[ChoiceKey := 1], [Scope(1, None, 3)])))
  {
    assert NestedChoiceNovel().scenes["test"] == NestedChoiceScene();
  }

  /** After 1 is recorded for the outer choice, the next call gives `first`. */
  lemma ChosenArmPlays()
    ensures Next(NestedChoiceNovel(), NovelState("test", map[], [Scope(1, None, 1)]), 2)
              == Ok((Some(Data(Text(None, "first"))),
                     NovelState("test", map[ChoiceKey := 1], [Scope(1, Some(First), 1), Scope(0, None, 1)])))
  {
    var novel, vars := NestedChoiceNovel(), map[ChoiceKey := 1];
    var entered := NovelState("test", vars, [Scope(1, Some(First), 1), DefaultScope]);
    ChosenArmEntered();
    ChosenLineOut();
    NextOnContinue(novel, NovelState("test", map[], [Scope(1, None, 1)]), entered, 2);
    NextOnYield(novel, entered, Data(Text(None, "first")), NovelState("test", vars, [Scope(1, Some(First), 1), Scope(0, None, 1)]), 1);
  }

  /** Once the inner choice is recorded, the next call ends the scene. */
  lemma PlayEndsAfterInnerChoice()
    ensures Next(NestedChoiceNovel(), NovelState("test", map[ChoiceKey := 1], [Scope(1, Some(First), 1), Scope(1, None, 2)]), 3)
              == Ok((None, NovelState("test", map[ChoiceKey := 1], [Scope(1, None, 3)])))
  {
    var novel, vars := NestedChoiceNovel(), map[ChoiceKey := 1];
    var inside := NovelState("test", vars, [Scope(1, Some(First), 1), Scope(1, None, 2)]);
    var past := NovelState("test", vars, [Scope(1, None, 2)]);
    var done := NovelState("test", vars, [Scope(1, None, 3)]);
    ChosenArmLeft();
    SecondArmSkipped();
    NestedChoiceSceneEnds();
    NextOnContinue(novel, inside, past, 3);
    NextOnContinue(novel, past, done, 2);
    NextOnFinished(novel, done, done, 1);
  }

  /** `[x / y]`, `if choice = 1` / `_: first` / `[a / b]` / `end`,
      `if choice = 2` / `_: second` / `end`, recording 1 after each choice:
      the outer choice, `first`, the inner choice, then the end of the scene. */
  lemma NestedChoicesPlayOut()
    ensures var novel := NestedChoiceNovel();
            var a := Next(novel, NewState(novel, "test"), 1);
            && a.Ok? && a.value.0 == Some(Data(Choice(["x", "y"])))
            && var b := Next(novel, SetChoice(a.value.1, 1), 2);
            && b.Ok? && b.value.0 == Some(Data(Text(None, "first")))
            && var c := Next(novel, b.value.1, 1);
            && c.Ok? && c.value.0 == Some(Data(Choice(["a", "b"])))
            && Next(novel, SetChoice(c.value.1, 1), 3) == Ok((None, NovelState("test", map[ChoiceKey := 1], [Scope(1, None, 3)])))
  {
    OuterChoiceShown();
    assert SetChoice(NovelState("test", map[], [Scope(0, None, 1)]), 1) == NovelState("test", map[], [Scope(1, None, 1)]);
    ChosenArmPlays();
    InnerChoiceShown();
    InnerChoiceRecorded();
    PlayEndsAfterInnerChoice();
  }
}
