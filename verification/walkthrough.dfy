/** Properties of the walker: what each kind of node does to the cursor,
    how a caller's sequence of `Next` calls plays out, and the traces the
    repository's own tests describe. */
module Walkthrough {
  import opened Results
  import opened Numbers
  import opened Conditions
  import opened NovelScript

  /** The node the innermost scope addresses, unless its body is exhausted. */
  function Current(novel: Novel, st: NovelState): Option<SceneNode> {
    if st.scene !in novel.scenes then None
    else
      match ActiveBody(novel.scenes[st.scene], st.scopes)
      case None => None
      case Some(body) =>
        var pos := Innermost(st.scopes).position;
        if pos < |body| then Some(body[pos]) else None
  }

  /** The innermost scope has walked past the end of its body. */
  predicate Exhausted(novel: Novel, st: NovelState) {
    && st.scene in novel.scenes
    && ActiveBody(novel.scenes[st.scene], st.scopes).Some?
    && Innermost(st.scopes).position >= |ActiveBody(novel.scenes[st.scene], st.scopes).value|
  }

  /** A caller that calls `Next` `calls` times with the same fuel per call,
      collecting what each call returned. */
  function Play(novel: Novel, st: NovelState, calls: nat, fuel: nat): (r: Result<(seq<Option<SceneNodeUser>>, NovelState), WalkError>)
    ensures r.Ok? ==> |r.value.0| == calls
    decreases calls
  {
    if calls == 0 then Ok(([], st))
    else
      var first :- Next(novel, st, fuel);
      var rest :- Play(novel, first.1, calls - 1, fuel);
      Ok(([first.0] + rest.0, rest.1))
  }

  // ---------------------------------------------------------------- one node at a time

  /** A user node is handed out as is; only the innermost position moves, by one. */
  lemma NextYieldsUserNode(novel: Novel, st: NovelState, u: SceneNodeUser, fuel: nat)
    requires Current(novel, st) == Some(User(u))
    requires fuel >= 1
    ensures var r := Next(novel, st, fuel);
            && r.Ok? && r.value.0 == Some(u)
            && r.value.1.scene == st.scene && r.value.1.variables == st.variables
            && |r.value.1.scopes| == |st.scopes|
            && r.value.1.scopes[..|st.scopes| - 1] == st.scopes[..|st.scopes| - 1]
            && Innermost(r.value.1.scopes) == Innermost(st.scopes).(position := Innermost(st.scopes).position + 1)
  {
  }

  /** On an `If`, the innermost scope's choice is published as `choice`, the
      arm is selected, and exactly one scope is pushed when an arm is entered
      (none otherwise). A failing condition fails the transition and nothing
      else happens. */
  lemma StepOnIf(novel: Novel, st: NovelState, cond: Condition, content: seq<SceneNode>, elseIfs: seq<ElseIf>, elseContent: Option<seq<SceneNode>>)
    requires Current(novel, st) == Some(Control(If(cond, content, elseIfs, elseContent)))
    ensures var top := Innermost(st.scopes);
            var vars := st.variables[ChoiceKey := top.choice];
            var sel := SelectArm(cond, elseIfs, elseContent.Some?, vars);
            var r := Step(novel, st);
            && (sel.Err? ==> r == Err(UndefinedVariable(sel.error)))
            && (sel.Ok? ==> r.Ok? && r.value.Continue?)
            && (sel.Ok? ==> r.value.next.scene == st.scene && r.value.next.variables == vars)
            && (sel.Ok? ==> ChoiceKey in r.value.next.variables && r.value.next.variables[ChoiceKey] == top.choice)
            && (sel == Ok(None) ==>
                  && |r.value.next.scopes| == |st.scopes|
                  && r.value.next.scopes[..|st.scopes| - 1] == st.scopes[..|st.scopes| - 1]
                  && Innermost(r.value.next.scopes) == top.(position := top.position + 1))
            && (sel.Ok? && sel.value.Some? ==>
                  && |r.value.next.scopes| == |st.scopes| + 1
                  && r.value.next.scopes[..|st.scopes| - 1] == st.scopes[..|st.scopes| - 1]
                  && r.value.next.scopes[|st.scopes| - 1] == top.(branch := sel.value)
                  && Innermost(r.value.next.scopes) == DefaultScope)
  {
    var top := Innermost(st.scopes);
    var vars := st.variables[ChoiceKey := top.choice];
    var sel := SelectArm(cond, elseIfs, elseContent.Some?, vars);
    if sel.Ok? && sel.value.Some? {
      var s' := SetInnermost(st.scopes, top.(branch := sel.value)) + [DefaultScope];
      assert s'[..|st.scopes| - 1] == st.scopes[..|st.scopes| - 1];
    }
  }

  /** The transition on an `If` whose selected arm is `b`, as one equation. */
  lemma StepEntersArm(novel: Novel, st: NovelState, cond: Condition, content: seq<SceneNode>, elseIfs: seq<ElseIf>, elseContent: Option<seq<SceneNode>>, b: Branch)
    requires Current(novel, st) == Some(Control(If(cond, content, elseIfs, elseContent)))
    requires SelectArm(cond, elseIfs, elseContent.Some?, st.variables[ChoiceKey := Innermost(st.scopes).choice]) == Ok(Some(b))
    ensures var top := Innermost(st.scopes);
            Step(novel, st) == Ok(Continue(NovelState(st.scene, st.variables[ChoiceKey := top.choice],
                                                      SetInnermost(st.scopes, top.(branch := Some(b))) + [DefaultScope])))
  {
  }

  /** The transition on an `If` none of whose arms is selected, as one equation. */
  lemma StepSkipsIf(novel: Novel, st: NovelState, cond: Condition, content: seq<SceneNode>, elseIfs: seq<ElseIf>, elseContent: Option<seq<SceneNode>>)
    requires Current(novel, st) == Some(Control(If(cond, content, elseIfs, elseContent)))
    requires SelectArm(cond, elseIfs, elseContent.Some?, st.variables[ChoiceKey := Innermost(st.scopes).choice]) == Ok(None)
    ensures var top := Innermost(st.scopes);
            Step(novel, st) == Ok(Continue(NovelState(st.scene, st.variables[ChoiceKey := top.choice],
                                                      SetInnermost(st.scopes, top.(position := top.position + 1)))))
  {
  }

  /** Once the if condition or an else-if holds, the arms after it play no
      part: replacing them, even by conditions on unset variables, or adding
      or dropping the else arm, selects the same arm. */
  lemma {:induction false} LaterArmsNotEvaluated(arms: seq<ElseIf>, i: nat, rest: seq<ElseIf>, vars: map<string, i32>)
    requires FirstTrue(arms, vars) == Ok(Some(i))
    ensures FirstTrue(arms[..i + 1] + rest, vars) == Ok(Some(i))
    decreases i
  {
    var arms' := arms[..i + 1] + rest;
    assert arms'[0] == arms[0];
    if i > 0 {
      assert Check(arms[0].cond, vars) == Ok(false);
      var tail := arms[1..];
      assert FirstTrue(tail, vars) == Ok(Some(i - 1));
      LaterArmsNotEvaluated(tail, i - 1, rest, vars);
      assert arms'[1..] == tail[..i] + rest;
    }
  }

  /** The arm-level form: the if arm or the first true else-if wins whatever follows. */
  lemma FirstMatchWins(cond: Condition, elseIfs: seq<ElseIf>, hasElse: bool, vars: map<string, i32>, rest: seq<ElseIf>, hasElse': bool)
    requires SelectArm(cond, elseIfs, hasElse, vars).Ok?
    requires SelectArm(cond, elseIfs, hasElse, vars).value.Some?
    ensures var b := SelectArm(cond, elseIfs, hasElse, vars).value.value;
            && (b == First ==> SelectArm(cond, rest, hasElse', vars) == Ok(Some(First)))
            && (b.Middle? ==> SelectArm(cond, elseIfs[..b.index + 1] + rest, hasElse', vars) == Ok(Some(b)))
  {
    var b := SelectArm(cond, elseIfs, hasElse, vars).value.value;
    if b.Middle? {
      LaterArmsNotEvaluated(elseIfs, b.index, rest, vars);
    }
  }

  /** A `Jump` drops every scope, whatever the nesting depth, and moves to the
      top of the target scene; the variables are kept. */
  lemma StepOnJump(novel: Novel, st: NovelState, target: string)
    requires Current(novel, st) == Some(Control(Jump(target)))
    ensures Step(novel, st) == Ok(Continue(NovelState(target, st.variables, [Scope(0, None, 0)])))
  {
  }

  /** After a jump the next call starts from the target scene's first node,
      also when the target is the scene being played. */
  lemma JumpRestartsTarget(novel: Novel, st: NovelState, target: string, u: SceneNodeUser, fuel: nat)
    requires Current(novel, st) == Some(Control(Jump(target)))
    requires target in novel.scenes && |novel.scenes[target]| > 0
    requires novel.scenes[target][0] == User(u)
    requires fuel >= 2
    ensures Next(novel, st, fuel) == Ok((Some(u), NovelState(target, st.variables, [Scope(0, None, 1)])))
  {
    var st' := NovelState(target, st.variables, [DefaultScope]);
    StepOnJump(novel, st, target);
    assert Current(novel, st') == Some(User(u));
    assert Next(novel, st, fuel) == Next(novel, st', fuel - 1);
  }

  /** A jump to a scene that was never registered fails the call with that
      scene's name, where the source panics on the lookup. */
  lemma JumpToUnknownSceneFails(novel: Novel, st: NovelState, target: string, fuel: nat)
    requires Current(novel, st) == Some(Control(Jump(target)))
    requires target !in novel.scenes
    requires fuel >= 2
    ensures Next(novel, st, fuel) == Err(UnknownScene(target))
  {
    var st' := NovelState(target, st.variables, [DefaultScope]);
    StepOnJump(novel, st, target);
    NextOnContinue(novel, st, st', fuel);
  }

  /** Leaving an exhausted nested body pops exactly one scope, clears the
      parent's branch and moves the parent past its `If`. */
  lemma StepLeavesBody(novel: Novel, st: NovelState)
    requires Exhausted(novel, st)
    requires |st.scopes| > 1
    ensures var r := Step(novel, st);
            var n := |st.scopes|;
            && r.Ok? && r.value.Continue?
            && r.value.next.scene == st.scene && r.value.next.variables == st.variables
            && |r.value.next.scopes| == n - 1
            && r.value.next.scopes[..n - 2] == st.scopes[..n - 2]
            && Innermost(r.value.next.scopes) == st.scopes[n - 2].(branch := None, position := st.scopes[n - 2].position + 1)
  {
  }

  /** At depth one an exhausted body ends the scene: `Next` returns nothing
      and leaves the cursor as it was. */
  lemma NextAtSceneEnd(novel: Novel, st: NovelState, fuel: nat)
    requires Exhausted(novel, st)
    requires |st.scopes| == 1
    requires fuel >= 1
    ensures Next(novel, st, fuel) == Ok((None, st))
  {
  }

  /** A choice recorded in a nested scope disappears with that scope: after
      leaving the body, the innermost choice is the parent's own again. */
  lemma ChoiceStaysInItsScope(novel: Novel, st: NovelState, v: i32)
    requires Exhausted(novel, st)
    requires |st.scopes| > 1
    ensures var r := Step(novel, SetChoice(st, v));
            && r.Ok? && r.value.Continue?
            && Innermost(r.value.next.scopes).choice == st.scopes[|st.scopes| - 2].choice
            && r.value.next.variables == st.variables
  {
    var st' := SetChoice(st, v);
    var root := novel.scenes[st.scene];
    ActiveBodyIgnoresInnermost(root, st.scopes, Innermost(st'.scopes));
    assert st'.scopes == SetInnermost(st.scopes, Innermost(st'.scopes));
    assert Exhausted(novel, st');
    StepLeavesBody(novel, st');
  }

  // ---------------------------------------------------------------- whole plays

  /** `calls` empty results. */
  function Nothing(calls: nat): seq<Option<SceneNodeUser>> {
    seq(calls, _ => None)
  }

  /** Once the scene is over, every further call returns nothing and leaves
      the cursor untouched. */
  lemma {:induction false} TerminalIsStable(novel: Novel, st: NovelState, calls: nat, fuel: nat)
    requires Terminal(novel, st)
    requires fuel >= 1
    ensures Play(novel, st, calls, fuel) == Ok((Nothing(calls), st))
    decreases calls
  {
    if calls == 0 {
      assert Nothing(0) == [];
    } else {
      assert Next(novel, st, fuel) == Ok((None, st));
      TerminalIsStable(novel, st, calls - 1, fuel);
      assert [None] + Nothing(calls - 1) == Nothing(calls);
    }
  }

  /** A body of user nodes only. */
  predicate Flat(body: seq<SceneNode>) {
    forall i | 0 <= i < |body| :: body[i].User?
  }

  /** What `Next` hands out for each node of a flat body. */
  function Outputs(body: seq<SceneNode>): seq<Option<SceneNodeUser>>
    requires Flat(body)
    decreases |body|
  {
    if |body| == 0 then [] else [Some(body[0].user)] + Outputs(body[1..])
  }

  lemma {:induction false} FlatSceneFrom(novel: Novel, name: string, vars: map<string, i32>, c: i32, i: nat)
    requires name in novel.scenes && Flat(novel.scenes[name])
    requires i <= |novel.scenes[name]|
    ensures var body := novel.scenes[name];
            Play(novel, NovelState(name, vars, [Scope(c, None, i)]), |body| - i + 1, 1)
              == Ok((Outputs(body[i..]) + [None], NovelState(name, vars, [Scope(c, None, |body|)])))
    decreases |novel.scenes[name]| - i
  {
    var body := novel.scenes[name];
    var st := NovelState(name, vars, [Scope(c, None, i)]);
    if i == |body| {
      assert Next(novel, st, 1) == Ok((None, st));
      assert Play(novel, st, 0, 1) == Ok(([], st));
      var first := Next(novel, st, 1);
      assert first.Ok? && first.value.1 == st;
      var rest := Play(novel, first.value.1, 0, 1);
      assert rest == Ok(([], st));
      assert [first.value.0] + rest.value.0 == [None];
      assert Play(novel, st, 1, 1) == Ok(([None], st));
      assert body[i..] == [];
      assert Outputs(body[i..]) + [None] == [None];
      assert |body| - i + 1 == 1;
    } else {
      var st' := NovelState(name, vars, [Scope(c, None, i + 1)]);
      var fin := NovelState(name, vars, [Scope(c, None, |body|)]);
      assert Next(novel, st, 1) == Ok((Some(body[i].user), st'));
      FlatSceneFrom(novel, name, vars, c, i + 1);
      var later := Outputs(body[i + 1..]) + [None];
      assert Play(novel, st', |body| - (i + 1) + 1, 1) == Ok((later, fin));
      assert Play(novel, st, |body| - i + 1, 1) == Ok(([Some(body[i].user)] + later, fin));
      assert body[i..][1..] == body[i + 1..];
      assert Outputs(body[i..]) == [Some(body[i].user)] + Outputs(body[i + 1..]);
      assert Outputs(body[i..]) + [None] == [Some(body[i].user)] + later;
    }
  }

  /** A scene without control nodes yields its nodes in source order, one per
      call, and then nothing. */
  lemma FlatSceneYieldsInOrder(novel: Novel, name: string)
    requires name in novel.scenes && Flat(novel.scenes[name])
    ensures var r := Play(novel, NewState(novel, name), |novel.scenes[name]| + 1, 1);
            r.Ok? && r.value.0 == Outputs(novel.scenes[name]) + [None]
  {
    FlatSceneFrom(novel, name, map[], 0, 0);
    assert novel.scenes[name][0..] == novel.scenes[name];
  }
}
