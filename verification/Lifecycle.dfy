/** The phase of an isolate (sandbox.zig:263), guarded by its operation lock. */
module Lifecycle {

  datatype Phase = Idle | Preparing | Running
}
