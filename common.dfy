/**
 * Values shared by the widget's modules: optional values, a byte type, what a
 * JavaScript `throw` can carry, the browser's `File`, and the few JavaScript
 * string operations the widget relies on, stated over `seq<char>`.
 */
module Common {

  datatype Option<T> = None | Some(value: T)

  datatype Result<T> = Ok(value: T) | Err(message: string)

  /** One element of a `Uint8Array`. */
  type byte = x: int | 0 <= x < 256

  /**
   * What a rejected promise or a `throw` carries: an `Error` object (whose
   * `message` may be empty) or any other value, such as a string or `null`.
   * A non-`Error` object that has a `message` property is not told apart
   * from the other non-`Error` values.
   */
  datatype Thrown = ErrorObject(message: string) | NonErrorValue

  /** A browser `File`: its name, its declared MIME type and its bytes. */
  datatype FileInput = FileInput(name: string, mime: string, bytes: seq<byte>)
  {
    /** `File.size`, the number of bytes. */
    function Size(): nat { |bytes| }
  }

  /**
   * What the hooks read from `window`: `screen.orientation?.type` (none when
   * the browser has no Screen Orientation API) and the viewport size.
   */
  datatype Screen = Screen(orientationType: Option<string>, innerWidth: int, innerHeight: int)

  /** `x || ''` for an optional string. */
  function OrEmpty(x: Option<string>): string
  {
    if x.Some? then x.value else ""
  }

  predicate StartsWith(s: string, prefix: string)
  {
    |prefix| <= |s| && s[..|prefix|] == prefix
  }

  predicate EndsWith(s: string, suffix: string)
  {
    |suffix| <= |s| && s[|s| - |suffix|..] == suffix
  }

  predicate OccursAt(s: string, sub: string, i: int)
  {
    0 <= i <= |s| - |sub| && s[i..i + |sub|] == sub
  }

  /** `s.includes(sub)`. */
  ghost predicate Contains(s: string, sub: string)
  {
    exists i :: OccursAt(s, sub, i)
  }

  lemma ContainsMiddle(a: string, b: string, c: string)
    ensures Contains(a + b + c, b)
  {
    assert (a + b + c)[|a|..|a| + |b|] == b;
    assert OccursAt(a + b + c, b, |a|);
  }

  lemma StartsWithPrepend(p: string, s: string, q: string)
    requires StartsWith(s, q)
    ensures StartsWith(p + s, p + q)
  {
    assert (p + s)[..|p| + |q|] == p + s[..|q|];
  }

  /** `s.lastIndexOf(c)`: the last position of `c`, or -1 when there is none. */
  function LastIndexOf(s: string, c: char): (r: int)
    ensures -1 <= r < |s|
    ensures r == -1 <==> c !in s
    ensures r != -1 ==> s[r] == c && c !in s[r + 1..]
  {
    if |s| == 0 then -1
    else if s[|s| - 1] == c then |s| - 1
    else LastIndexOf(s[..|s| - 1], c)
  }

  /** `s.substring(0, n)`: JavaScript clamps `n` into `0 .. s.length`. */
  function Prefix(s: string, n: int): (r: string)
    ensures |r| == if n < 0 then 0 else if n > |s| then |s| else n
    ensures r <= s
  {
    if n < 0 then [] else if n > |s| then s else s[..n]
  }

  function LowerChar(c: char): char
  {
    if 'A' <= c <= 'Z' then (c as int + 32) as char else c
  }

  /** ASCII lower-casing, the case folding a JavaScript `/i` regular expression applies to ASCII letters. */
  function Lower(s: string): (r: string)
    ensures |r| == |s|
    ensures forall i :: 0 <= i < |s| ==> r[i] == LowerChar(s[i])
  {
    if |s| == 0 then [] else [LowerChar(s[0])] + Lower(s[1..])
  }

  /** `/suffix$/i` for a lower-case ASCII `suffix`. */
  predicate EndsWithIgnoringCase(s: string, suffix: string)
  {
    |suffix| <= |s| && Lower(s[|s| - |suffix|..]) == suffix
  }
}
