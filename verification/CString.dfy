/** C strings in character buffers. */
module CString {
  /** The C string at the start of a buffer: everything before the first NUL. */
  function Text(content: string): (t: string)
    ensures t <= content && '\0' !in t
    ensures t == content || (|t| < |content| && content[|t|] == '\0')
  {
    if content == "" || content[0] == '\0' then "" else [content[0]] + Text(content[1..])
  }
}
