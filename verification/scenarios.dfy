/** The plays the repository's tests walk through, on trees built directly
    (the text front end is not part of this model). */
module Scenarios {
  import opened Results
  import opened Numbers
  import opened Conditions
  import opened NovelScript
  import opened Walkthrough

  function Line(speaker: Option<string>, content: string): SceneNode {
    User(Data(Text(speaker, content)))
  }

  function IfThen(cond: Condition, body: seq<SceneNode>): SceneNode {
    Control(If(cond, body, [], None))
  }

  function VarEquals(name: string, n: i32): Condition {
    Condition(Variable(name), Equals, Number(n))
  }

  /** `if num = 13` / `_: first` / `end` with `num` set to 13: the body's line,
      then the end of the scene. */
  lemma IfTakenThenSceneEnds()
    ensures var novel := AddNodes(NewNovel(), "test", [IfThen(VarEquals("num", 13), [Line(None, "first")])]);
            var st := SetVariable(NewState(novel, "test"), "num", 13);
            && st.Ok?
            && var first := Next(novel, st.value, 2);
            && first.Ok? && first.value.0 == Some(Data(Text(None, "first")))
            && Next(novel, first.value.1, 2).Ok? && Next(novel, first.value.1, 2).value.0 == None
  {
    var root := [IfThen(VarEquals("num", 13), [Line(None, "first")])];
    var novel := AddNodes(NewNovel(), "test", root);
    var st := SetVariable(NewState(novel, "test"), "num", 13).value;
    assert st.scopes == [DefaultScope];
    var vars := st.variables[ChoiceKey := 0];
    assert "num" in vars && vars["num"] == 13;
    assert Check(VarEquals("num", 13), vars) == Ok(true);
    assert SelectArm(VarEquals("num", 13), [], false, vars) == Ok(Some(First));
    assert ActiveBody(root, st.scopes) == Some(root);
    var inside := NovelState("test", vars, [Scope(0, Some(First), 0), DefaultScope]);
    assert SetInnermost(st.scopes, DefaultScope.(branch := Some(First))) + [DefaultScope] == inside.scopes;
    assert novel.scenes["test"] == root;
    assert Current(novel, st) == Some(root[0]);
    StepOnIf(novel, st, VarEquals("num", 13), [Line(None, "first")], [], None);
    assert Step(novel, st) == Ok(Continue(inside));
    var after := NovelState("test", vars, [Scope(0, Some(First), 0), Scope(0, None, 1)]);
    assert ActiveBody(root, inside.scopes) == Some([Line(None, "first")]);
    assert SetInnermost(inside.scopes, DefaultScope.(position := 1)) == after.scopes;
    assert Step(novel, inside) == Ok(Yield(Data(Text(None, "first")), after));
    assert Next(novel, st, 2) == Ok((Some(Data(Text(None, "first"))), after));
    var back := NovelState("test", vars, [Scope(0, None, 1)]);
    assert Step(novel, after) == Ok(Continue(back));
    assert Step(novel, back) == Ok(Finished(back));
  }

  /** `if num = 17` / `_: first` / `end` with `num` set to 13: nothing is
      entered and the first call already ends the scene. */
  lemma IfNotTakenEndsScene()
    ensures var novel := AddNodes(NewNovel(), "test", [IfThen(VarEquals("num", 17), [Line(None, "first")])]);
            var st := SetVariable(NewState(novel, "test"), "num", 13);
            && st.Ok?
            && Next(novel, st.value, 2).Ok? && Next(novel, st.value, 2).value.0 == None
  {
    var root := [IfThen(VarEquals("num", 17), [Line(None, "first")])];
    var novel := AddNodes(NewNovel(), "test", root);
    var st := SetVariable(NewState(novel, "test"), "num", 13).value;
    assert st.scopes == [DefaultScope];
    var vars := st.variables[ChoiceKey := 0];
    assert "num" in vars && vars["num"] == 13;
    assert Check(VarEquals("num", 17), vars) == Ok(false);
    assert SelectArm(VarEquals("num", 17), [], false, vars) == Ok(None);
    assert novel.scenes["test"] == root;
    assert Current(novel, st) == Some(root[0]);
    StepOnIf(novel, st, VarEquals("num", 17), [Line(None, "first")], [], None);
    var past := NovelState("test", vars, [Scope(0, None, 1)]);
    assert SetInnermost(st.scopes, DefaultScope.(position := 1)) == past.scopes;
    assert Step(novel, st) == Ok(Continue(past));
    assert Step(novel, past) == Ok(Finished(past));
    NextOnContinue(novel, st, past, 2);
    NextOnFinished(novel, past, past, 1);
  }

  /** Scenario with a line before an `if` on a variable nobody set: the line
      comes out, and the next call fails instead of skipping the `if`. */
  lemma UnsetVariableFails()
    ensures var novel := AddNodes(NewNovel(), "test", [Line(Some("foo"), "hi"), IfThen(VarEquals("x", 1), [Line(Some("bar"), "yes")])]);
            var first := Next(novel, NewState(novel, "test"), 1);
            && first.Ok? && first.value.0 == Some(Data(Text(Some("foo"), "hi")))
            && forall fuel: nat | fuel >= 1 :: Next(novel, first.value.1, fuel) == Err(UndefinedVariable(FirstUndefined(Variable("x"))))
  {
    var root := [Line(Some("foo"), "hi"), IfThen(VarEquals("x", 1), [Line(Some("bar"), "yes")])];
    var novel := AddNodes(NewNovel(), "test", root);
    var st := NewState(novel, "test");
    assert novel.scenes["test"] == root;
    assert Current(novel, st) == Some(root[0]);
    NextYieldsUserNode(novel, st, Data(Text(Some("foo"), "hi")), 1);
    var st1 := NovelState("test", map[], [Scope(0, None, 1)]);
    assert Next(novel, st, 1).value.1.scopes == st1.scopes;
    assert Current(novel, st1) == Some(root[1]);
    var vars := map[][ChoiceKey := 0];
    assert "x" !in vars;
    assert Check(VarEquals("x", 1), vars) == Err(FirstUndefined(Variable("x")));
    StepOnIf(novel, st1, VarEquals("x", 1), [Line(Some("bar"), "yes")], [], None);
  }

  function ChoiceScene(): seq<SceneNode> {
    [ User(Data(Choice(["x", "y"]))),
      IfThen(VarEquals("choice", 1), [Line(None, "first")]),
      IfThen(VarEquals("choice", 2), [Line(None, "second")]) ]
  }

  function ChoiceNovel(): Novel {
    AddNodes(NewNovel(), "test", ChoiceScene())
  }

  lemma ChoiceIsShown()
    ensures Next(ChoiceNovel(), NewState(ChoiceNovel(), "test"), 1)
              == Ok((Some(Data(Choice(["x", "y"]))), NovelState("test", map[], [Scope(0, None, 1)])))
  {
    var novel := ChoiceNovel();
    var root := ChoiceScene();
    assert novel.scenes["test"] == root;
    var st0 := NewState(novel, "test");
    assert Current(novel, st0) == Some(root[0]);
    NextYieldsUserNode(novel, st0, Data(Choice(["x", "y"])), 1);
    assert Next(novel, st0, 1).value.1.scopes == [Scope(0, None, 1)];
  }

  /** With 1 recorded, the first condition holds. */
  lemma FirstArmSelected()
    ensures SelectArm(VarEquals("choice", 1), [], false, map[ChoiceKey := 1]) == Ok(Some(First))
  {
    assert Check(VarEquals("choice", 1), map[ChoiceKey := 1]) == Ok(true);
  }

  /** With 1 recorded, the first `if` enters its body. */
  lemma ChoiceEntersFirstArm()
    ensures Step(ChoiceNovel(), NovelState("test", map[], [Scope(1, None, 1)]))
              == Ok(Continue(NovelState("test", map[ChoiceKey := 1], [Scope(1, Some(First), 1), DefaultScope])))
  {
    var novel := ChoiceNovel();
    var root := ChoiceScene();
    assert novel.scenes["test"] == root;
    var st2 := NovelState("test", map[], [Scope(1, None, 1)]);
    assert Current(novel, st2) == Some(root[1]);
    assert map[][ChoiceKey := 1] == map[ChoiceKey := 1];
    FirstArmSelected();
    StepOnIf(novel, st2, VarEquals("choice", 1), [Line(None, "first")], [], None);
    var st3 := NovelState("test", map[ChoiceKey := 1], [Scope(1, Some(First), 1), DefaultScope]);
    assert SetInnermost(st2.scopes, Scope(1, Some(First), 1)) + [DefaultScope] == st3.scopes;
  }

  /** Inside the first body, its one line comes out. */
  lemma FirstArmYieldsLine()
    ensures Step(ChoiceNovel(), NovelState("test", map[ChoiceKey := 1], [Scope(1, Some(First), 1), DefaultScope]))
              == Ok(Yield(Data(Text(None, "first")),
                          NovelState("test", map[ChoiceKey := 1], [Scope(1, Some(First), 1), Scope(0, None, 1)])))
  {
    var novel := ChoiceNovel();
    var root := ChoiceScene();
    assert novel.scenes["test"] == root;
    var st3 := NovelState("test", map[ChoiceKey := 1], [Scope(1, Some(First), 1), DefaultScope]);
    assert ActiveBody(root, st3.scopes) == Some([Line(None, "first")]);
    assert SetInnermost(st3.scopes, DefaultScope.(position := 1)) == [Scope(1, Some(First), 1), Scope(0, None, 1)];
  }

  lemma ChosenArmIsEntered()
    ensures Next(ChoiceNovel(), NovelState("test", map[], [Scope(1, None, 1)]), 2)
              == Ok((Some(Data(Text(None, "first"))),
                     NovelState("test", map[ChoiceKey := 1], [Scope(1, Some(First), 1), Scope(0, None, 1)])))
  {
    var novel, vars := ChoiceNovel(), map[ChoiceKey := 1];
    var entered := NovelState("test", vars, [Scope(1, Some(First), 1), DefaultScope]);
    ChoiceEntersFirstArm();
    FirstArmYieldsLine();
    NextOnContinue(novel, NovelState("test", map[], [Scope(1, None, 1)]), entered, 2);
    NextOnYield(novel, entered, Data(Text(None, "first")), NovelState("test", vars, [Scope(1, Some(First), 1), Scope(0, None, 1)]), 1);
  }

  /** The first body is exhausted: its scope is popped and the walk moves
      past the first `if`. */
  lemma FirstArmLeft()
    ensures Step(ChoiceNovel(), NovelState("test", map[ChoiceKey := 1], [Scope(1, Some(First), 1), Scope(0, None, 1)]))
              == Ok(Continue(NovelState("test", map[ChoiceKey := 1], [Scope(1, None, 2)])))
  {
    var novel, root := ChoiceNovel(), ChoiceScene();
    assert novel.scenes["test"] == root;
    var scopes := [Scope(1, Some(First), 1), Scope(0, None, 1)];
    assert ActiveBody(root, scopes) == Some([Line(None, "first")]);
    var outer: Scopes := scopes[..1];
    assert outer == [Scope(1, Some(First), 1)];
    assert SetInnermost(outer, Scope(1, None, 2)) == [Scope(1, None, 2)];
  }

  /** With 1 recorded, the second `if` is skipped. */
  lemma SecondIfSkipped()
    ensures Step(ChoiceNovel(), NovelState("test", map[ChoiceKey := 1], [Scope(1, None, 2)]))
              == Ok(Continue(NovelState("test", map[ChoiceKey := 1], [Scope(1, None, 3)])))
  {
    var novel, root := ChoiceNovel(), ChoiceScene();
    assert novel.scenes["test"] == root;
    var vars := map[ChoiceKey := 1];
    var st := NovelState("test", vars, [Scope(1, None, 2)]);
    assert Current(novel, st) == Some(root[2]);
    assert vars[ChoiceKey := 1] == vars;
    assert Check(VarEquals("choice", 2), vars) == Ok(false);
    StepSkipsIf(novel, st, VarEquals("choice", 2), [Line(None, "second")], [], None);
    assert SetInnermost(st.scopes, Scope(1, None, 3)) == [Scope(1, None, 3)];
  }

  lemma ChoiceSceneEnds()
    ensures Step(ChoiceNovel(), NovelState("test", map[ChoiceKey := 1], [Scope(1, None, 3)]))
              == Ok(Finished(NovelState("test", map[ChoiceKey := 1], [Scope(1, None, 3)])))
  {
    assert ChoiceNovel().scenes["test"] == ChoiceScene();
  }

  lemma OtherArmIsSkipped()
    ensures Next(ChoiceNovel(), NovelState("test", map[ChoiceKey := 1], [Scope(1, Some(First), 1), Scope(0, None, 1)]), 3)
              == Ok((None, NovelState("test", map[ChoiceKey := 1], [Scope(1, None, 3)])))
  {
    var novel := ChoiceNovel();
    var vars := map[ChoiceKey := 1];
    var st4 := NovelState("test", vars, [Scope(1, Some(First), 1), Scope(0, None, 1)]);
    var st5 := NovelState("test", vars, [Scope(1, None, 2)]);
    var st6 := NovelState("test", vars, [Scope(1, None, 3)]);
    FirstArmLeft();
    SecondIfSkipped();
    ChoiceSceneEnds();
    NextOnContinue(novel, st4, st5, 3);
    NextOnContinue(novel, st5, st6, 2);
    NextOnFinished(novel, st6, st6, 1);
  }

  /** `[x / y]`, then `if choice = 1` / `_: first` / `end` and
      `if choice = 2` / `_: second` / `end`: after the choice is shown and 1 is
      recorded, exactly the first body's line comes out, then the end. */
  lemma RecordedChoiceSelectsArm()
    ensures var novel := ChoiceNovel();
            var shown := Next(novel, NewState(novel, "test"), 1);
            && shown.Ok? && shown.value.0 == Some(Data(Choice(["x", "y"])))
            && var picked := Next(novel, SetChoice(shown.value.1, 1), 2);
            && picked.Ok? && picked.value.0 == Some(Data(Text(None, "first")))
            && Next(novel, picked.value.1, 3) == Ok((None, NovelState("test", map[ChoiceKey := 1], [Scope(1, None, 3)])))
  {
    ChoiceIsShown();
    var st1 := NovelState("test", map[], [Scope(0, None, 1)]);
    assert SetChoice(st1, 1) == NovelState("test", map[], [Scope(1, None, 1)]);
    ChosenArmIsEntered();
    OtherArmIsSkipped();
  }

  function JumpNovel(): Novel {
    AddNodes(AddNodes(NewNovel(), "test", [Line(Some("foo"), "test"), Line(None, "test"), Control(Jump("test2"))]),
             "test2", [Line(Some("foo"), "it is test2"), Line(None, "indeed")])
  }

  /** Two scenes, the first ending in `jump test2`: its two lines, then the
      two lines of `test2`, one per call. */
  lemma JumpContinuesInTarget()
    ensures var novel := JumpNovel();
            var a := Next(novel, NewState(novel, "test"), 1);
            && a.Ok? && a.value.0 == Some(Data(Text(Some("foo"), "test")))
            && var b := Next(novel, a.value.1, 1);
            && b.Ok? && b.value.0 == Some(Data(Text(None, "test")))
            && var c := Next(novel, b.value.1, 2);
            && c.Ok? && c.value.0 == Some(Data(Text(Some("foo"), "it is test2")))
            && var d := Next(novel, c.value.1, 1);
            && d.Ok? && d.value.0 == Some(Data(Text(None, "indeed")))
  {
    var novel := JumpNovel();
    var first := [Line(Some("foo"), "test"), Line(None, "test"), Control(Jump("test2"))];
    var second := [Line(Some("foo"), "it is test2"), Line(None, "indeed")];
    assert novel.scenes["test"] == first;
    assert novel.scenes["test2"] == second;
    var st0 := NewState(novel, "test");
    assert Current(novel, st0) == Some(first[0]);
    NextYieldsUserNode(novel, st0, Data(Text(Some("foo"), "test")), 1);
    var st1 := NovelState("test", map[], [Scope(0, None, 1)]);
    assert Next(novel, st0, 1).value.1.scopes == st1.scopes;
    assert Current(novel, st1) == Some(first[1]);
    NextYieldsUserNode(novel, st1, Data(Text(None, "test")), 1);
    var st2 := NovelState("test", map[], [Scope(0, None, 2)]);
    assert Next(novel, st1, 1).value.1.scopes == st2.scopes;
    assert Current(novel, st2) == Some(Control(Jump("test2")));
    JumpRestartsTarget(novel, st2, "test2", Data(Text(Some("foo"), "it is test2")), 2);
    var st3 := NovelState("test2", map[], [Scope(0, None, 1)]);
    assert Current(novel, st3) == Some(second[1]);
    NextYieldsUserNode(novel, st3, Data(Text(None, "indeed")), 1);
  }

  function GuardedNovel(): Novel {
    AddNodes(NewNovel(), "test", [
      Control(If(VarEquals("x", 1), [Line(None, "a")],
                 [ElseIf(VarEquals("y", 1), [Line(None, "b")])],
                 Some([Line(None, "c")])))])
  }

  /** `if x = 1` … `else if y = 1` … `else` … `end` with `y` never set: when
      `x` is 1 the if body is entered and the else-if is never evaluated;
      when `x` is 0 the else-if is evaluated and the call fails. */
  lemma UnreachedArmIsNotEvaluated()
    ensures var novel := GuardedNovel();
            var one := SetVariable(NewState(novel, "test"), "x", 1);
            var zero := SetVariable(NewState(novel, "test"), "x", 0);
            && one.Ok? && zero.Ok?
            && Next(novel, one.value, 2).Ok? && Next(novel, one.value, 2).value.0 == Some(Data(Text(None, "a")))
            && Next(novel, zero.value, 2) == Err(UndefinedVariable(FirstUndefined(Variable("y"))))
  {
    var novel := GuardedNovel();
    var arms := [ElseIf(VarEquals("y", 1), [Line(None, "b")])];
    var root := [Control(If(VarEquals("x", 1), [Line(None, "a")], arms, Some([Line(None, "c")])))];
    assert novel.scenes["test"] == root;
    // x = 1
    var st := SetVariable(NewState(novel, "test"), "x", 1).value;
    assert st.scopes == [DefaultScope];
    var vars := st.variables[ChoiceKey := 0];
    assert "x" in vars && vars["x"] == 1;
    assert Check(VarEquals("x", 1), vars) == Ok(true);
    assert SelectArm(VarEquals("x", 1), arms, true, vars) == Ok(Some(First));
    assert Current(novel, st) == Some(root[0]);
    StepOnIf(novel, st, VarEquals("x", 1), [Line(None, "a")], arms, Some([Line(None, "c")]));
    var inside := NovelState("test", vars, [Scope(0, Some(First), 0), DefaultScope]);
    assert SetInnermost(st.scopes, Scope(0, Some(First), 0)) + [DefaultScope] == inside.scopes;
    assert Step(novel, st) == Ok(Continue(inside));
    assert ActiveBody(root, inside.scopes) == Some([Line(None, "a")]);
    assert Current(novel, inside) == Some(Line(None, "a"));
    NextYieldsUserNode(novel, inside, Data(Text(None, "a")), 1);
    // x = 0
    var st' := SetVariable(NewState(novel, "test"), "x", 0).value;
    assert st'.scopes == [DefaultScope];
    var vars' := st'.variables[ChoiceKey := 0];
    assert "x" in vars' && vars'["x"] == 0 && "y" !in vars';
    assert Check(VarEquals("x", 1), vars') == Ok(false);
    assert Check(arms[0].cond, vars') == Err(FirstUndefined(Variable("y")));
    assert FirstTrue(arms, vars') == Err(FirstUndefined(Variable("y")));
    assert SelectArm(VarEquals("x", 1), arms, true, vars') == Err(FirstUndefined(Variable("y")));
    assert Current(novel, st') == Some(root[0]);
    StepOnIf(novel, st', VarEquals("x", 1), [Line(None, "a")], arms, Some([Line(None, "c")]));
  }
}
