/** What `Novel::next` and `get_item` as written return: every path through
    `get_item` ends in `return None`, so `next` never sees a node, pops
    scopes until one is left and then reports the end of the scene. The
    nodes `get_item` removes and its `offset` updates on the way are not
    modelled. Set against `NovelScript.Next`, which addresses nodes by a
    position in each scope, as the per-scope `index` commented out in
    `Scope` would have, and yields what the repository's tests expect. */
module StubWalker {
  import opened Results
  import opened NovelScript
  import opened Walkthrough
  import opened Scenarios

  /** The value `get_item` as written returns: a missing scene is an error,
      otherwise no node. */
  function GetItemAsWritten(novel: Novel, st: NovelState): (r: Result<Option<SceneNode>, WalkError>)
    ensures r.Err? <==> st.scene !in novel.scenes
    ensures r.Ok? ==> r.value.None?
  {
    if st.scene !in novel.scenes then Err(UnknownScene(st.scene)) else Ok(None)
  }

  /** `next` as written on top of it: with no node, pop a scope and clear the
      parent's branch while there is more than one, then return nothing. */
  function NextAsWritten(novel: Novel, st: NovelState): (r: Result<(Option<SceneNodeUser>, NovelState), WalkError>)
    ensures r.Err? <==> st.scene !in novel.scenes
    ensures r.Ok? ==> r.value.0.None? && |r.value.1.scopes| == 1
    ensures r.Ok? ==> r.value.1.scene == st.scene && r.value.1.variables == st.variables
    decreases |st.scopes|
  {
    match GetItemAsWritten(novel, st)
    case Err(e) => Err(e)
    case Ok(_) =>
      if |st.scopes| > 1 then
        var outer: Scopes := st.scopes[..|st.scopes| - 1];
        NextAsWritten(novel, st.(scopes := SetInnermost(outer, Innermost(outer).(branch := None))))
      else Ok((None, st))
  }

  /** The two-line scene `foo: test` / `_: test`. */
  function TwoLineNovel(): Novel {
    AddNodes(NewNovel(), "test", [Line(Some("foo"), "test"), Line(None, "test")])
  }

  /** On that scene the first call as written returns nothing, where the
      walker that addresses nodes hands out `foo: test`. */
  lemma FirstCallAsWrittenIsEmpty()
    ensures NextAsWritten(TwoLineNovel(), NewState(TwoLineNovel(), "test")).value.0 == None
    ensures Next(TwoLineNovel(), NewState(TwoLineNovel(), "test"), 1).Ok?
    ensures Next(TwoLineNovel(), NewState(TwoLineNovel(), "test"), 1).value.0 == Some(Data(Text(Some("foo"), "test")))
  {
    var novel := TwoLineNovel();
    var st := NewState(novel, "test");
    assert novel.scenes["test"] == [Line(Some("foo"), "test"), Line(None, "test")];
    assert Current(novel, st) == Some(Line(Some("foo"), "test"));
    NextYieldsUserNode(novel, st, Data(Text(Some("foo"), "test")), 1);
  }
}
