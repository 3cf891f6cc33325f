/**
 * `main` and `executor` (src/main.rs:278-309): choose the numeric type from
 * the second argument and the operation from the first, or say why not.
 * The arguments are those after the program name.
 */
module Dispatch {
  import opened Wrappers
  import opened Codec

  /** Printed for a type name outside the supported set. */
  const NotSupported: string := "Not a supported format"

  /** Printed for an operation other than `write` and `read`. */
  const ChooseOperation: string := "Input write or read"

  /** What one run of the program does. */
  datatype Action =
    | Help                           // print the help text, nothing else
    | Say(message: string)           // print one line, touch no file
    | Write(tag: Tag, file: string)  // pipe_write for the type, into the file
    | Read(tag: Tag, file: string)   // read_file for the type, from the file

  /** The name of each type on the command line. */
  function Name(t: Tag): string {
    match t
    case U8 => "u8"
    case U16 => "u16"
    case U32 => "u32"
    case U64 => "u64"
    case U128 => "u128"
    case I8 => "i8"
    case I16 => "i16"
    case I32 => "i32"
    case I64 => "i64"
    case I128 => "i128"
    case F32 => "f32"
    case F64 => "f64"
  }

  /** The type a command-line name selects, if any. */
  function TagOf(name: string): (r: Option<Tag>)
    ensures r.Some? ==> Name(r.value) == name
  {
    if name == "u8" then Some(U8)
    else if name == "u16" then Some(U16)
    else if name == "u32" then Some(U32)
    else if name == "u64" then Some(U64)
    else if name == "u128" then Some(U128)
    else if name == "i8" then Some(I8)
    else if name == "i16" then Some(I16)
    else if name == "i32" then Some(I32)
    else if name == "i64" then Some(I64)
    else if name == "i128" then Some(I128)
    else if name == "f32" then Some(F32)
    else if name == "f64" then Some(F64)
    else None
  }

  /** Every type is selected by its name and only by it. */
  lemma TagOfName(t: Tag, name: string)
    ensures TagOf(name) == Some(t) <==> name == Name(t)
  {
    if name == Name(t) {
      match t
      case U8 =>
      case U16 =>
      case U32 =>
      case U64 =>
      case U128 =>
      case I8 =>
      case I16 =>
      case I32 =>
      case I64 =>
      case I128 =>
      case F32 =>
      case F64 =>
    }
  }

  /** `executor`: `write` and `read` start their operation; anything else is a hint. */
  function Executor(op: string, t: Tag, file: string): (a: Action)
    ensures a == Write(t, file) <==> op == "write"
    ensures a == Read(t, file) <==> op == "read"
    ensures a == Say(ChooseOperation) <==> op != "write" && op != "read"
  {
    if op == "write" then Write(t, file)
    else if op == "read" then Read(t, file)
    else Say(ChooseOperation)
  }

  /**
   * `main`: any number of arguments other than three prints the help text;
   * an unknown type name is reported whatever the operation; otherwise the
   * executor decides.
   */
  function Run(args: seq<string>): (a: Action)
    ensures a == Help <==> |args| != 3
    ensures |args| == 3 ==> (a == Say(NotSupported) <==> TagOf(args[1]).None?)
    ensures a.Write? <==> |args| == 3 && args[0] == "write" && TagOf(args[1]).Some?
    ensures a.Read? <==> |args| == 3 && args[0] == "read" && TagOf(args[1]).Some?
    ensures a.Write? || a.Read? ==> Name(a.tag) == args[1] && a.file == args[2]
    ensures a == Say(ChooseOperation)
        <==> |args| == 3 && TagOf(args[1]).Some? && args[0] != "write" && args[0] != "read"
  {
    if |args| != 3 then Help
    else
      match TagOf(args[1])
      case None => Say(NotSupported)
      case Some(t) => Executor(args[0], t, args[2])
  }

  /** The dispatch examples: a seven-bit type and a missing argument touch no file. */
  lemma RunExamples()
    ensures Run(["write", "u7", "out.bin"]) == Say(NotSupported)
    ensures Run(["copy", "u7", "out.bin"]) == Say(NotSupported)
    ensures Run(["copy", "i32", "out.bin"]) == Say(ChooseOperation)
    ensures Run(["write", "i32"]) == Help
    ensures Run(["read", "i32", "output.bin"]) == Read(I32, "output.bin")
  {
  }
}
