/** The optional value used for the frame-rate report: None when a frame
    emits nothing, Some(fps) when it pushes an `updateFps` event. */
module Wrappers {

  datatype Option<+T> = None | Some(value: T)
}
