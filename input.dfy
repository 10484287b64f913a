/** The device's input events, as both scenes receive them: a key and the
    kind of press. */
module Input {

  datatype InputKey = Up | Down | Right | Left | Ok | Back

  datatype InputType = Press | Release | Short | Long | Repeat

  datatype InputEvent = InputEvent(kind: InputType, key: InputKey)

  datatype Option<T> = None | Some(value: T)

  /** Events the scene manager hands to a scene's event handler. */
  datatype SceneEvent = SceneCustom(code: nat) | SceneBack | SceneTick
}
