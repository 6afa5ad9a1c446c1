/** The narrative tree, the playthrough cursor and the pull-based walker
    (lib.rs `SceneNode`, `Scope`, `NovelState`, `Novel::next`).

    Branch bodies are nested sequences owned by their `If` node, and every
    scope records its own position in the body it walks. */
module NovelScript {
  import opened Results
  import opened Numbers
  import opened Conditions

  // ---------------------------------------------------------------- tree

  datatype SceneNodeData =
    | Text(speaker: Option<string>, content: string)
    | Choice(options: seq<string>)

  datatype SceneNodeLoad =
    | Character(character: string, expression: Option<string>, placement: Option<string>)
    | Background(name: string)
    | PlaySound(name: string, channel: string)
    | RemoveCharacter(name: string)

  /** The nodes a caller of `Next` gets to see. */
  datatype SceneNodeUser = Data(data: SceneNodeData) | Load(load: SceneNodeLoad)

  /** One `else if` arm: its condition and the body it guards. */
  datatype ElseIf = ElseIf(cond: Condition, body: seq<SceneNode>)

  /** Nodes the walker resolves internally and never hands out. */
  datatype SceneNodeControl =
    | If(cond: Condition, content: seq<SceneNode>, elseIfs: seq<ElseIf>, elseContent: Option<seq<SceneNode>>)
    | Jump(target: string)

  datatype SceneNode = User(user: SceneNodeUser) | Control(control: SceneNodeControl)

  /** The registered scenes, by name. */
  datatype Novel = Novel(scenes: map<string, seq<SceneNode>>)

  // ---------------------------------------------------------------- cursor

  /** Which arm of an `If` a scope has entered: the if body, else-if number
      `index`, or the else body. */
  datatype Branch = First | Middle(index: nat) | Last

  /** One frame of the cursor: the choice recorded in it, the arm entered
      from the node at `position` (if any), and the index of the next node. */
  datatype Scope = Scope(choice: i32, branch: Option<Branch>, position: nat)

  const DefaultScope: Scope := Scope(0, None, 0)

  /** A scope stack is never empty; the innermost scope is the last one. */
  type Scopes = s: seq<Scope> | |s| > 0 witness [Scope(0, None, 0)]

  datatype NovelState = NovelState(scene: string, variables: map<string, i32>, scopes: Scopes)

  /** The variable name reserved for the innermost scope's recorded choice. */
  const ChoiceKey: string := "choice"

  function Innermost(s: Scopes): Scope {
    s[|s| - 1]
  }

  function SetInnermost(s: Scopes, sc: Scope): (r: Scopes)
    ensures |r| == |s| && r[..|s| - 1] == s[..|s| - 1] && Innermost(r) == sc
  {
    s[..|s| - 1] + [sc]
  }

  // ---------------------------------------------------------------- setup

  /** `Novel::new`: no scenes. */
  function NewNovel(): (r: Novel)
    ensures forall name :: name !in r.scenes
  {
    Novel(map[])
  }

  /** `Novel::add_nodes`: registers (or replaces) one scene. */
  function AddNodes(novel: Novel, name: string, nodes: seq<SceneNode>): (r: Novel)
    ensures name in r.scenes && r.scenes[name] == nodes
    ensures forall other | other != name :: (other in r.scenes <==> other in novel.scenes)
    ensures forall other | other != name && other in novel.scenes :: r.scenes[other] == novel.scenes[other]
  {
    Novel(novel.scenes[name := nodes])
  }

  /** `Novel::new_state`: a cursor at the top of `startingScene`, no variables. */
  function NewState(novel: Novel, startingScene: string): (r: NovelState)
    ensures r.scene == startingScene && r.variables == map[]
    ensures |r.scopes| == 1 && r.scopes[0].position == 0 && r.scopes[0].choice == 0
    ensures WellFormed(novel, r)
  {
    NovelState(startingScene, map[], [DefaultScope])
  }

  datatype StateError = ReservedName(name: string)

  /** `NovelState::set_variable`: rejects the reserved name, otherwise sets
      one variable and leaves everything else alone. */
  function SetVariable(st: NovelState, name: string, data: i32): (r: Result<NovelState, StateError>)
    ensures r.Err? <==> name == ChoiceKey
    ensures r.Ok? ==> r.value.scene == st.scene && r.value.scopes == st.scopes
    ensures r.Ok? ==> name in r.value.variables && r.value.variables[name] == data
    ensures r.Ok? ==> forall other | other != name :: (other in r.value.variables <==> other in st.variables)
    ensures r.Ok? ==> forall other | other != name && other in st.variables :: r.value.variables[other] == st.variables[other]
  {
    if name == ChoiceKey then Err(ReservedName(name))
    else Ok(st.(variables := st.variables[name := data]))
  }

  /** `NovelState::set_choice`: records a choice in the innermost scope only. */
  function SetChoice(st: NovelState, choice: i32): (r: NovelState)
    ensures r.scene == st.scene && r.variables == st.variables
    ensures |r.scopes| == |st.scopes|
    ensures forall i | 0 <= i < |st.scopes| - 1 :: r.scopes[i] == st.scopes[i]
    ensures Innermost(r.scopes).choice == choice
    ensures Innermost(r.scopes).branch == Innermost(st.scopes).branch
    ensures Innermost(r.scopes).position == Innermost(st.scopes).position
  {
    var top := Innermost(st.scopes);
    st.(scopes := SetInnermost(st.scopes, top.(choice := choice)))
  }

  // ---------------------------------------------------------------- addressing

  /** The body an `If` arm selects, if the node is an `If` with that arm. */
  function ArmBody(node: SceneNode, b: Branch): Option<seq<SceneNode>> {
    match node
    case Control(If(_, content, elseIfs, elseContent)) =>
      (match b
       case First => Some(content)
       case Middle(n) => if n < |elseIfs| then Some(elseIfs[n].body) else None
       case Last => elseContent)
    case _ => None
  }

  /** The body the innermost scope walks: starting at the scene's root, each
      outer scope descends into the arm it entered at its position. `None`
      when the scopes do not address an existing arm. */
  function ActiveBody(root: seq<SceneNode>, scopes: Scopes): Option<seq<SceneNode>>
    decreases |scopes|
  {
    if |scopes| == 1 then Some(root)
    else
      var s := scopes[0];
      if s.position < |root| && s.branch.Some? then
        match ArmBody(root[s.position], s.branch.value)
        case Some(body) => ActiveBody(body, scopes[1..])
        case None => None
      else None
  }

  /** A cursor every frame of which addresses an existing arm of the current
      scene (when that scene is registered), and whose innermost frame has not
      entered an arm. */
  predicate WellFormed(novel: Novel, st: NovelState) {
    && Innermost(st.scopes).branch.None?
    && (st.scene in novel.scenes ==> ActiveBody(novel.scenes[st.scene], st.scopes).Some?)
  }

  /** The cursor is past the end of its scene's top-level body. */
  predicate Terminal(novel: Novel, st: NovelState) {
    && |st.scopes| == 1
    && st.scene in novel.scenes
    && st.scopes[0].position >= |novel.scenes[st.scene]|
  }

  // ---------------------------------------------------------------- branch selection

  /** The first else-if arm whose condition holds, evaluating arms in order
      and stopping at the first that holds or fails. */
  function FirstTrue(arms: seq<ElseIf>, vars: map<string, i32>): (r: Result<Option<nat>, CheckError>)
    ensures r.Ok? && r.value.Some? ==>
              && r.value.value < |arms|
              && Check(arms[r.value.value].cond, vars) == Ok(true)
              && forall j | 0 <= j < r.value.value :: Check(arms[j].cond, vars) == Ok(false)
    ensures r == Ok(None) ==> forall j | 0 <= j < |arms| :: Check(arms[j].cond, vars) == Ok(false)
    ensures r.Err? ==> exists k | 0 <= k < |arms| ::
              && Check(arms[k].cond, vars) == Err(r.error)
              && forall j | 0 <= j < k :: Check(arms[j].cond, vars) == Ok(false)
    decreases |arms|
  {
    if |arms| == 0 then Ok(None)
    else
      var holds :- Check(arms[0].cond, vars);
      if holds then Ok(Some(0))
      else
        var rest :- FirstTrue(arms[1..], vars);
        match rest
        case None => Ok(None)
        case Some(i) => Ok(Some(i + 1))
  }

  /** Which arm of `if cond … else if … else … end` is entered: the if arm when
      its condition holds, else the first else-if that holds, else the else
      arm when there is one, else none. */
  function SelectArm(cond: Condition, elseIfs: seq<ElseIf>, hasElse: bool, vars: map<string, i32>): (r: Result<Option<Branch>, CheckError>)
    ensures r == Ok(Some(First)) <==> Check(cond, vars) == Ok(true)
    ensures r.Ok? && r.value.Some? && r.value.value.Middle? ==>
              var n := r.value.value.index;
              && Check(cond, vars) == Ok(false)
              && n < |elseIfs|
              && Check(elseIfs[n].cond, vars) == Ok(true)
              && forall j | 0 <= j < n :: Check(elseIfs[j].cond, vars) == Ok(false)
    ensures r == Ok(Some(Last)) <==>
              && hasElse
              && Check(cond, vars) == Ok(false)
              && forall j | 0 <= j < |elseIfs| :: Check(elseIfs[j].cond, vars) == Ok(false)
    ensures r == Ok(None) <==>
              && !hasElse
              && Check(cond, vars) == Ok(false)
              && forall j | 0 <= j < |elseIfs| :: Check(elseIfs[j].cond, vars) == Ok(false)
    ensures r.Err? ==> Check(cond, vars) == Err(r.error) || (Check(cond, vars) == Ok(false) && FirstTrue(elseIfs, vars) == Err(r.error))
  {
    var holds :- Check(cond, vars);
    if holds then Ok(Some(First))
    else
      var arm :- FirstTrue(elseIfs, vars);
      match arm
      case Some(n) => Ok(Some(Middle(n)))
      case None => if hasElse then Ok(Some(Last)) else Ok(None)
  }

  // ---------------------------------------------------------------- walking

  /** What one internal transition of the walker produced. */
  datatype StepResult =
    | Yield(node: SceneNodeUser, next: NovelState)
    | Continue(next: NovelState)
    | Finished(next: NovelState)

  datatype WalkError =
    | UnknownScene(name: string)
    | UndefinedVariable(cause: CheckError)
    | InvalidCursor
    | StepLimit

  /** One transition: look at the node the innermost scope addresses and
      either hand out a user node, resolve an `If` or a `Jump`, leave an
      exhausted body, or report that the scene is over. */
  function Step(novel: Novel, st: NovelState): (r: Result<StepResult, WalkError>)
    ensures st.scene !in novel.scenes ==> r == Err(UnknownScene(st.scene))
    ensures r.Err? ==> r.error != StepLimit
  {
    if st.scene !in novel.scenes then Err(UnknownScene(st.scene))
    else
      match ActiveBody(novel.scenes[st.scene], st.scopes)
      case None => Err(InvalidCursor)
      case Some(body) =>
        var top := Innermost(st.scopes);
        if top.position < |body| then
          match body[top.position]
          case User(u) =>
            Ok(Yield(u, st.(scopes := SetInnermost(st.scopes, top.(position := top.position + 1)))))
          case Control(If(cond, _, elseIfs, elseContent)) =>
            var vars := st.variables[ChoiceKey := top.choice];
            (match SelectArm(cond, elseIfs, elseContent.Some?, vars)
             case Err(e) => Err(UndefinedVariable(e))
             case Ok(None) =>
               Ok(Continue(NovelState(st.scene, vars, SetInnermost(st.scopes, top.(position := top.position + 1)))))
             case Ok(Some(b)) =>
               Ok(Continue(NovelState(st.scene, vars, SetInnermost(st.scopes, top.(branch := Some(b))) + [DefaultScope]))))
          case Control(Jump(target)) =>
            Ok(Continue(NovelState(target, st.variables, [DefaultScope])))
        else if |st.scopes| > 1 then
          var outer: Scopes := st.scopes[..|st.scopes| - 1];
          var parent := Innermost(outer);
          Ok(Continue(st.(scopes := SetInnermost(outer, parent.(branch := None, position := parent.position + 1)))))
        else
          Ok(Finished(st))
  }

  /** The transition loop of `Novel::next`: runs transitions until one hands
      out a user node or the scene is over. Each internal transition costs one
      unit of `fuel`; a run that is out of fuel reports `StepLimit` instead of
      looping on a jump cycle. */
  function Run(novel: Novel, st: NovelState, fuel: nat): (r: Result<(Option<SceneNodeUser>, NovelState), WalkError>)
    ensures fuel == 0 ==> r == Err(StepLimit)
    ensures fuel > 0 && st.scene !in novel.scenes ==> r == Err(UnknownScene(st.scene))
    decreases fuel
  {
    if fuel == 0 then Err(StepLimit)
    else
      match Step(novel, st)
      case Err(e) => Err(e)
      case Ok(Yield(u, st')) => Ok((Some(u), st'))
      case Ok(Finished(st')) => Ok((None, st'))
      case Ok(Continue(st')) => Run(novel, st', fuel - 1)
  }

  /** `Novel::next`: the transition loop, with what it guarantees about the
      cursor it returns. */
  function Next(novel: Novel, st: NovelState, fuel: nat): (r: Result<(Option<SceneNodeUser>, NovelState), WalkError>)
    ensures WellFormed(novel, st) && r.Ok? ==> WellFormed(novel, r.value.1)
    ensures WellFormed(novel, st) && r.Err? ==> r.error != InvalidCursor
    ensures r.Ok? && r.value.0.None? ==> Terminal(novel, r.value.1)
    ensures fuel == 0 ==> r == Err(StepLimit)
    ensures fuel > 0 && st.scene !in novel.scenes ==> r == Err(UnknownScene(st.scene))
  {
    RunKeepsWellFormed(novel, st, fuel);
    Run(novel, st, fuel)
  }

  /** Every transition keeps the cursor well formed, so the loop does; and
      the loop only stops without a node at the end of the scene. */
  lemma {:induction false} RunKeepsWellFormed(novel: Novel, st: NovelState, fuel: nat)
    ensures var r := Run(novel, st, fuel);
            && (WellFormed(novel, st) && r.Ok? ==> WellFormed(novel, r.value.1))
            && (WellFormed(novel, st) && r.Err? ==> r.error != InvalidCursor)
            && (r.Ok? && r.value.0.None? ==> Terminal(novel, r.value.1))
    decreases fuel
  {
    if fuel > 0 {
      StepPreservesWellFormed(novel, st);
      match Step(novel, st)
      case Ok(Continue(st')) => RunKeepsWellFormed(novel, st', fuel - 1);
      case _ =>
    }
  }

  /** A call whose transition continues is the call on the next cursor with
      one unit of fuel less. */
  lemma NextOnContinue(novel: Novel, st: NovelState, st': NovelState, fuel: nat)
    requires fuel > 0 && Step(novel, st) == Ok(Continue(st'))
    ensures Next(novel, st, fuel) == Next(novel, st', fuel - 1)
  {
  }

  /** A call whose transition hands out a user node returns it with that cursor. */
  lemma NextOnYield(novel: Novel, st: NovelState, u: SceneNodeUser, st': NovelState, fuel: nat)
    requires fuel > 0 && Step(novel, st) == Ok(Yield(u, st'))
    ensures Next(novel, st, fuel) == Ok((Some(u), st'))
  {
  }

  /** A call whose transition ends the scene returns nothing and that cursor. */
  lemma NextOnFinished(novel: Novel, st: NovelState, st': NovelState, fuel: nat)
    requires fuel > 0 && Step(novel, st) == Ok(Finished(st'))
    ensures Next(novel, st, fuel) == Ok((None, st'))
  {
  }

  /** The loop with more fuel: once a run finishes within some fuel, any
      larger fuel gives the same outcome. */
  lemma {:induction false} RunFuelMonotone(novel: Novel, st: NovelState, f: nat, g: nat)
    requires f <= g
    requires !(Run(novel, st, f).Err? && Run(novel, st, f).error == StepLimit)
    ensures Run(novel, st, g) == Run(novel, st, f)
    decreases f
  {
    if f > 0 {
      var continues, st' := RunFirstStep(novel, st, f, g);
      if continues {
        RunFuelMonotone(novel, st', f - 1, g - 1);
      }
    }
  }

  /** The first transition of a run with fuel left either continues to a
      next cursor, and the run is the run from there with one unit less, or
      it decides the outcome whatever the fuel. */
  lemma RunFirstStep(novel: Novel, st: NovelState, f: nat, g: nat) returns (continues: bool, st': NovelState)
    requires f > 0 && g > 0
    ensures continues ==> Run(novel, st, f) == Run(novel, st', f - 1) && Run(novel, st, g) == Run(novel, st', g - 1)
    ensures !continues ==> Run(novel, st, g) == Run(novel, st, f)
  {
    match Step(novel, st)
    case Ok(Continue(next)) => continues, st' := true, next;
    case _ => continues, st' := false, st;
  }

  /** The step bound only cuts a call short: once a call finishes within
      some fuel, any larger fuel gives the same outcome. */
  lemma FuelMonotone(novel: Novel, st: NovelState, f: nat, g: nat)
    requires f <= g
    requires !(Next(novel, st, f).Err? && Next(novel, st, f).error == StepLimit)
    ensures Next(novel, st, g) == Next(novel, st, f)
  {
    RunFuelMonotone(novel, st, f, g);
  }

  // ---------------------------------------------------------------- invariants

  /** The innermost frame's fields never affect which body it walks. */
  lemma {:induction false} ActiveBodyIgnoresInnermost(root: seq<SceneNode>, s: Scopes, sc: Scope)
    ensures ActiveBody(root, SetInnermost(s, sc)) == ActiveBody(root, s)
    decreases |s|
  {
    if |s| > 1 {
      var s' := SetInnermost(s, sc);
      var tail: Scopes := s[1..];
      assert s'[0] == s[0];
      assert s'[1..] == SetInnermost(tail, sc);
      var h := s[0];
      if h.position < |root| && h.branch.Some? {
        match ArmBody(root[h.position], h.branch.value)
        case Some(body) => ActiveBodyIgnoresInnermost(body, tail, sc);
        case None =>
      }
    }
  }

  /** Entering an arm from the innermost frame makes the new frame walk that arm. */
  lemma {:induction false} ActiveBodyPush(root: seq<SceneNode>, s: Scopes, body: seq<SceneNode>, b: Branch, arm: seq<SceneNode>, sc: Scope)
    requires ActiveBody(root, s) == Some(body)
    requires Innermost(s).position < |body|
    requires ArmBody(body[Innermost(s).position], b) == Some(arm)
    ensures ActiveBody(root, SetInnermost(s, Innermost(s).(branch := Some(b))) + [sc]) == Some(arm)
    decreases |s|
  {
    var s' := SetInnermost(s, Innermost(s).(branch := Some(b))) + [sc];
    if |s| == 1 {
      assert s'[1..] == [sc];
    } else {
      var tail: Scopes := s[1..];
      assert s'[0] == s[0];
      assert s'[1..] == SetInnermost(tail, Innermost(tail).(branch := Some(b))) + [sc];
      var h := s[0];
      match ArmBody(root[h.position], h.branch.value)
      case Some(inner) => ActiveBodyPush(inner, tail, body, b, arm, sc);
    }
  }

  /** Dropping the innermost frame leaves an addressable stack. */
  lemma {:induction false} ActiveBodyPop(root: seq<SceneNode>, s: Scopes)
    requires |s| > 1
    requires ActiveBody(root, s).Some?
    ensures ActiveBody(root, s[..|s| - 1]).Some?
    decreases |s|
  {
    var outer: Scopes := s[..|s| - 1];
    if |s| > 2 {
      var tail: Scopes := s[1..];
      assert outer[0] == s[0];
      assert outer[1..] == tail[..|tail| - 1];
      var h := s[0];
      match ArmBody(root[h.position], h.branch.value)
      case Some(inner) => ActiveBodyPop(inner, tail);
    }
  }

  /** A transition from a well-formed cursor never finds it invalid and leads
      to a well-formed cursor; a finished transition leaves a terminal one. */
  lemma StepPreservesWellFormed(novel: Novel, st: NovelState)
    ensures WellFormed(novel, st) && Step(novel, st).Err? ==> Step(novel, st).error != InvalidCursor
    ensures WellFormed(novel, st) && Step(novel, st).Ok? ==> WellFormed(novel, Step(novel, st).value.next)
    ensures Step(novel, st).Ok? && Step(novel, st).value.Finished? ==> Terminal(novel, Step(novel, st).value.next)
  {
    if st.scene in novel.scenes && WellFormed(novel, st) {
      var root := novel.scenes[st.scene];
      var body := ActiveBody(root, st.scopes).value;
      var top := Innermost(st.scopes);
      if top.position < |body| {
        match body[top.position]
        case User(u) =>
          ActiveBodyIgnoresInnermost(root, st.scopes, top.(position := top.position + 1));
        case Control(If(cond, content, elseIfs, elseContent)) =>
          var vars := st.variables[ChoiceKey := top.choice];
          match SelectArm(cond, elseIfs, elseContent.Some?, vars) {
            case Err(e) =>
            case Ok(None) =>
              ActiveBodyIgnoresInnermost(root, st.scopes, top.(position := top.position + 1));
            case Ok(Some(b)) =>
              var arm := ArmBody(body[top.position], b);
              assert arm.Some?;
              ActiveBodyPush(root, st.scopes, body, b, arm.value, DefaultScope);
          }
        case Control(Jump(target)) =>
      } else if |st.scopes| > 1 {
        var outer: Scopes := st.scopes[..|st.scopes| - 1];
        var parent := Innermost(outer);
        ActiveBodyPop(root, st.scopes);
        ActiveBodyIgnoresInnermost(root, outer, parent.(branch := None, position := parent.position + 1));
      }
    }
  }

  /** Setting a variable between calls keeps the cursor well formed. */
  lemma SetVariableKeepsWellFormed(novel: Novel, st: NovelState, name: string, data: i32)
    requires WellFormed(novel, st)
    ensures SetVariable(st, name, data).Ok? ==> WellFormed(novel, SetVariable(st, name, data).value)
  {
  }

  /** Recording a choice between calls keeps the cursor well formed. */
  lemma SetChoiceKeepsWellFormed(novel: Novel, st: NovelState, choice: i32)
    requires WellFormed(novel, st)
    ensures WellFormed(novel, SetChoice(st, choice))
  {
    var top := Innermost(st.scopes);
    if st.scene in novel.scenes {
      ActiveBodyIgnoresInnermost(novel.scenes[st.scene], st.scopes, top.(choice := choice));
    }
  }
}
