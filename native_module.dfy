/**
 * The argument handling of `NativeETFModule::py_binary_to_term_2` in
 * native_src/library.cpp: check the argument count, take the data argument as
 * bytes, default-construct the options and parse the optional dictionary into
 * them.
 */
module NativeModule {
  import opened Wrappers
  import opened ByteCodec
  import opened Options

  /** The Python values a caller can pass, as far as the argument handling distinguishes them. */
  datatype PyObject =
    | PyNone
    | PyBytes(data: seq<byte>)
    | PyDict(items: map<string, bool>)   // each value already read with `as_bool`
    | PyOther

  datatype CallError =
    | WrongArgumentCount(count: nat)   // `verify_length(1, 2)` failed
    | TypeError                        // an argument is not of the type it is converted to

  /** The bytes and options `py_binary_to_term_2` decodes with, or the exception it raises first. */
  method BinaryToTerm2Arguments(args: seq<PyObject>) returns (r: Result<(seq<byte>, DecodeOptions), CallError>)
    ensures !(1 <= |args| <= 2) <==> r == Err(WrongArgumentCount(|args|))
    ensures 1 <= |args| <= 2 && !args[0].PyBytes? ==> r == Err(TypeError)
    ensures 1 <= |args| <= 2 && args[0].PyBytes? && (|args| == 1 || args[1].PyNone?) ==>
      r == Ok((args[0].data, FromArgument(None)))
    ensures 1 <= |args| <= 2 && args[0].PyBytes? && |args| == 2 && args[1].PyDict? ==>
      r == Ok((args[0].data, FromArgument(Some(args[1].items))))
    ensures |args| == 2 && args[0].PyBytes? && !args[1].PyNone? && !args[1].PyDict? ==> r == Err(TypeError)
    ensures r.Ok? <==>
      1 <= |args| <= 2 && args[0].PyBytes? && (|args| == 1 || args[1].PyNone? || args[1].PyDict?)
  {
    if !(1 <= |args| <= 2) {
      return Err(WrongArgumentCount(|args|));
    }
    if !args[0].PyBytes? {
      return Err(TypeError);
    }
    var data := args[0].data;
    var options := new B2TOptions();
    if |args| > 1 && !args[1].PyNone? {
      if !args[1].PyDict? {
        return Err(TypeError);
      }
      options.Parse(args[1].items);
    }
    r := Ok((data, options.Value()));
  }
}
