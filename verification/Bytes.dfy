/** Byte strings, and the first-match search the wire code is built on. */
module Bytes {
  import opened Words

  type byte = b: int | 0 <= b < 256
  type bytes = seq<byte>

  const SOH: byte := 0x01
  const EQUALS: byte := 0x3D
  const PLUS: byte := 0x2B
  const ZERO: byte := 0x30

  const USIZE_MAX: nat := U64_MAX

  datatype Option<+T> = None | Some(value: T)

  /** Index of the first occurrence of `b`. */
  function Position(s: bytes, b: byte): (r: Option<nat>)
    ensures r.None? <==> b !in s
    ensures r.Some? ==> r.value < |s| && s[r.value] == b && b !in s[..r.value]
  {
    if b !in s then None
    else
      FirstExists(s, b);
      var i :| 0 <= i < |s| && s[i] == b && b !in s[..i];
      Some(i)
  }

  lemma {:induction false} FirstExists(s: bytes, b: byte)
    requires b in s
    ensures exists i :: 0 <= i < |s| && s[i] == b && b !in s[..i]
  {
    if s[0] == b {
      assert b !in s[..0];
    } else {
      FirstExists(s[1..], b);
      var i :| 0 <= i < |s[1..]| && s[1..][i] == b && b !in s[1..][..i];
      assert s[i + 1] == b && s[..i + 1] == [s[0]] + s[1..][..i];
    }
  }

  lemma PositionIs(s: bytes, b: byte, i: nat)
    requires i < |s| && s[i] == b && b !in s[..i]
    ensures Position(s, b) == Some(i)
  {
    assert s[i] in s;
  }

  /** Bytes arriving later never move the first match. */
  lemma PositionExtends(s: bytes, ext: bytes, b: byte)
    requires b in s
    ensures Position(s + ext, b) == Position(s, b)
  {
    var i := Position(s, b).value;
    assert (s + ext)[..i] == s[..i];
    PositionIs(s + ext, b, i);
  }

  lemma PositionOfDelimiter(a: bytes, b: byte, c: bytes)
    requires b !in a
    ensures Position(a + [b] + c, b) == Some(|a|)
  {
    assert (a + [b] + c)[..|a|] == a;
    PositionIs(a + [b] + c, b, |a|);
  }

  function Flatten(parts: seq<bytes>): bytes {
    if parts == [] then [] else parts[0] + Flatten(parts[1..])
  }

  lemma {:induction false} FlattenAppend(parts: seq<bytes>, last: bytes)
    ensures Flatten(parts + [last]) == Flatten(parts) + last
  {
    if parts == [] {
      assert [last][1..] == [];
    } else {
      assert (parts + [last])[1..] == parts[1..] + [last];
      FlattenAppend(parts[1..], last);
    }
  }
}
