/** The part of Go's encoding/json that fixes the size of a read response:
    encoding the two-field `ReadResponse` object, with the HTML-safe string
    escaping that both `json.Marshal` and `json.NewEncoder` apply. Each
    char of a string stands for one byte. */
module Json {
  import opened Base

  /** The body of a read reply: `{"content": ..., "padding": ...}`. */
  datatype ReadResponse = ReadResponse(content: string, padding: string)

  const HexDigits := "0123456789abcdef"

  /** The bytes encoding/json writes for one byte inside a string literal:
      the byte itself exactly when it is printable and not one of `"`, `\`,
      `<`, `>`, `&`; otherwise a two- or six-byte backslash escape. */
  function EscapeByte(c: char): (e: string)
    ensures e == [c] <==> c as int >= 0x20 && c != '"' && c != '\\' && c != '<' && c != '>' && c != '&'
    ensures e != [c] ==> (|e| == 2 || |e| == 6) && e[0] == '\\'
  {
    if c == '"' then "\\\""
    else if c == '\\' then "\\\\"
    else if c == '\n' then "\\n"
    else if c == '\r' then "\\r"
    else if c == '\t' then "\\t"
    else if c as int == 8 then "\\b"
    else if c as int == 12 then "\\f"
    else if c as int < 0x20 || c == '<' || c == '>' || c == '&' then
      "\\u00" + [HexDigits[c as int / 16], HexDigits[c as int % 16]]
    else [c]
  }

  /** A byte that encoding/json copies unchanged. */
  predicate Plain(c: char) {
    EscapeByte(c) == [c]
  }

  /** Letters and the space are copied unchanged. */
  lemma LettersArePlain(c: char)
    requires 'a' <= c <= 'z' || 'A' <= c <= 'Z' || c == ' '
    ensures Plain(c)
  {
  }

  /** The escaped contents of a string literal, without the quotes: never
      shorter than the string, as long exactly when every byte is plain,
      and then the string itself. */
  function Escaped(s: string): (r: string)
    ensures |r| >= |s|
    ensures |r| == |s| <==> forall i :: 0 <= i < |s| ==> Plain(s[i])
    ensures (forall i :: 0 <= i < |s| ==> Plain(s[i])) ==> r == s
  {
    if s == [] then []
    else
      assert forall i :: 0 <= i < |s[1..]| ==> s[1..][i] == s[i + 1];
      assert s == [s[0]] + s[1..];
      EscapeByte(s[0]) + Escaped(s[1..])
  }

  /** `json.Marshal(ReadResponse{...})`: fields in declaration order, 27
      bytes of framing around the two escaped fields. */
  function Marshal(r: ReadResponse): (m: string)
    ensures |m| == 27 + |Escaped(r.content)| + |Escaped(r.padding)|
    ensures m[0] == '{' && m[|m| - 1] == '}'
  {
    "{\"content\":\"" + Escaped(r.content) + "\",\"padding\":\"" + Escaped(r.padding) + "\"}"
  }

  /** Inserting `n` filler bytes 'X' into the padding field lengthens the
      encoded object by exactly `n`. */
  lemma MarshalWithFiller(content: string, n: nat)
    ensures |Marshal(ReadResponse(content, Repeat('X', n)))| == |Marshal(ReadResponse(content, ""))| + n
  {
    var filler := Repeat('X', n);
    assert forall i :: 0 <= i < |filler| ==> Plain(filler[i]);
  }
}
