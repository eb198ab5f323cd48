/** Scene enumeration and switching (src/obs/scene_switcher.cpp) over an
    abstract OBS frontend: an ordered list of scene sources, the current
    scene, and a trace of every set-current call the switcher makes. */
module Scenes {
  import opened Wrappers

  /** A scene source as the frontend enumerates it. */
  datatype Scene = Scene(name: string)

  /** The OBS frontend: its scenes in enumeration order and which one is
      current (by position). `setCalls` records each
      `obs_frontend_set_current_scene` call, by position. */
  class Frontend {
    var scenes: seq<Scene>
    var current: Option<nat>
    var setCalls: seq<nat>

    constructor (scenes: seq<Scene>, current: Option<nat>)
      ensures this.scenes == scenes && this.current == current && setCalls == []
    {
      this.scenes := scenes;
      this.current := current;
      setCalls := [];
    }

    /** `obs_frontend_set_current_scene`: makes scene `i` current. */
    method SetCurrentScene(i: nat)
      requires i < |scenes|
      modifies this
      ensures current == Some(i) && setCalls == old(setCalls) + [i]
      ensures scenes == old(scenes)
    {
      current := Some(i);
      setCalls := setCalls + [i];
    }
  }

  /** The names of `scenes`, in order. */
  function Names(scenes: seq<Scene>): (names: seq<string>)
    ensures |names| == |scenes|
    ensures forall i :: 0 <= i < |scenes| ==> names[i] == scenes[i].name
  {
    seq(|scenes|, i requires 0 <= i < |scenes| => scenes[i].name)
  }

  /** Position of the first scene named exactly `name`, if any. */
  function FirstNamed(scenes: seq<Scene>, name: string): (r: Option<nat>)
    ensures r.Some? ==> r.value < |scenes| && scenes[r.value].name == name
    ensures r.Some? ==> forall j :: 0 <= j < r.value ==> scenes[j].name != name
    ensures r.None? ==> forall j :: 0 <= j < |scenes| ==> scenes[j].name != name
  {
    if scenes == [] then None
    else if scenes[0].name == name then Some(0)
    else match FirstNamed(scenes[1..], name)
      case None => None
      case Some(k) => Some(k + 1)
  }

  /** `getSceneList`: one name per frontend scene, in enumeration order. */
  method GetSceneList(host: Frontend) returns (list: seq<string>)
    ensures list == Names(host.scenes)
  {
    list := [];
    var i := 0;
    while i < |host.scenes|
      invariant 0 <= i <= |host.scenes|
      invariant list == Names(host.scenes[..i])
    {
      list := list + [host.scenes[i].name];
      i := i + 1;
    }
    assert host.scenes[..i] == host.scenes;
  }

  /** `switchScene`: makes the first scene named exactly `sceneName`
      current with a single set-current call and stops there; when no scene
      has that name nothing changes. The scene list itself never changes. */
  method SwitchScene(host: Frontend, sceneName: string)
    modifies host
    ensures host.scenes == old(host.scenes)
    ensures FirstNamed(host.scenes, sceneName).Some? ==>
      host.current == FirstNamed(host.scenes, sceneName) &&
      host.setCalls == old(host.setCalls) + [FirstNamed(host.scenes, sceneName).value]
    ensures FirstNamed(host.scenes, sceneName).None? ==>
      host.current == old(host.current) && host.setCalls == old(host.setCalls)
  {
    var i := 0;
    while i < |host.scenes|
      invariant 0 <= i <= |host.scenes|
      invariant host.scenes == old(host.scenes) && host.current == old(host.current)
      invariant host.setCalls == old(host.setCalls)
      invariant forall j :: 0 <= j < i ==> host.scenes[j].name != sceneName
    {
      if host.scenes[i].name == sceneName {
        host.SetCurrentScene(i);
        return;
      }
      i := i + 1;
    }
  }

  /** Every name `getSceneList` reports switches successfully, and to a
      scene of that name; a name it does not report never switches. */
  lemma {:induction false} ListedNamesSwitch(scenes: seq<Scene>, name: string)
    ensures FirstNamed(scenes, name).Some? <==> name in Names(scenes)
  {
    if name in Names(scenes) {
      var i :| 0 <= i < |scenes| && Names(scenes)[i] == name;
      assert scenes[i].name == name;
    }
  }
}
