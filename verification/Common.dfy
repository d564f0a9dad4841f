/** What several modules use. */
module Common {
  datatype Option<T> = None | Some(value: T)

  /** A wider number stored into an int. */
  function ToInt(v: int): (i: int)
    ensures -0x8000_0000 <= i < 0x8000_0000
    ensures -0x8000_0000 <= v < 0x8000_0000 ==> i == v
    ensures (v - i) % 0x1_0000_0000 == 0
  {
    (v + 0x8000_0000) % 0x1_0000_0000 - 0x8000_0000
  }

  /** The codes of the characters of a string. */
  function Ascii(s: string): (t: seq<int>)
    ensures |t| == |s|
  {
    seq(|s|, i requires 0 <= i < |s| => s[i] as int)
  }
}
