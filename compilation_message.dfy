/**
 * CompilationMessage: the names of shader compilation message types.
 * The C side turns a `WGPU_COMPILATION_MESSAGE_TYPE` into its name
 * (lib/lib_webgpu.cpp:7-11); the JavaScript side turns a browser
 * message's type name into the number (lib/lib_webgpu.js:1160).
 */
module CompilationMessage {

  /** `WGPU_COMPILATION_MESSAGE_TYPE_*` (lib/lib_webgpu.h:1392-1394). */
  const Error := 0
  const Warning := 1
  const Info := 2

  /** The JavaScript lookup array `['error', 'warning', 'info']`. */
  const TypeNames: seq<string> := ["error", "warning", "info"]

  /**
   * `wgpu_compilation_message_type_to_string`: "warning" for WARNING,
   * "info" for INFO, "error" for ERROR and for every other number.
   */
  function TypeToString(t: int): (s: string)
    ensures s in TypeNames
    ensures s == "warning" <==> t == Warning
    ensures s == "info" <==> t == Info
    ensures s == "error" <==> t != Warning && t != Info
  {
    if t == Warning then "warning" else if t == Info then "info" else "error"
  }

  /** JavaScript's `Array.prototype.indexOf`: the first position of `x`, or -1. */
  function IndexOf(names: seq<string>, x: string): (i: int)
    ensures -1 <= i < |names|
    ensures i >= 0 ==> names[i] == x && x !in names[..i]
    ensures i == -1 <==> x !in names
  {
    if |names| == 0 then -1
    else if names[0] == x then 0
    else
      var j := IndexOf(names[1..], x);
      assert names[1..][..if j < 0 then 0 else j] == names[1..1 + if j < 0 then 0 else j];
      if j == -1 then -1 else j + 1
  }

  /**
   * For the three message types the name's position in the JavaScript
   * array is the type number: the C and JavaScript tables agree.
   */
  lemma NamePositionIsType(t: int)
    requires Error <= t <= Info
    ensures IndexOf(TypeNames, TypeToString(t)) == t
  {
    assert TypeNames[0] == "error" && TypeNames[1] == "warning" && TypeNames[2] == "info";
    assert "error" != "warning" && "error" != "info" && "warning" != "info";
  }

  /**
   * A type name the browser reports comes back unchanged through the
   * number the JavaScript side stores.
   */
  lemma TypeNameRoundTrip(name: string)
    requires name in TypeNames
    ensures TypeToString(IndexOf(TypeNames, name)) == name
  {
    assert TypeNames[0] == "error" && TypeNames[1] == "warning" && TypeNames[2] == "info";
    assert "error" != "warning" && "error" != "info" && "warning" != "info";
  }
}
