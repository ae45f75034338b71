/** Frames of stored stack traces. */
module StackTraces {
  import opened Bytes
  import opened FlameTrie

  datatype InterpKind = Python | Php | Native | Kernel | Jvm | Ruby | Perl | Js | PhpJit | DotNet | Beam | Go

  datatype FrameKind =
    | Regular(interp: InterpKind)
    | Error(interp: InterpKind)
    | Abort
    | UnknownKind(raw: byte)
    | UnknownError(raw: byte)

  datatype Frame = Frame(id: FrameId, kind: FrameKind)

  type TraceHash = u128
}
