/** Device selection by serial-number prefix (main.c:69-77, 120-130). */
module DeviceMatch {
  import opened Bytes

  /** The byte a C string holds at index i: its terminator, or what follows, reads as
      NUL past the bytes given. */
  function At(s: seq<byte>, i: nat): byte
  {
    if i < |s| then s[i] else 0
  }

  /** tolower in the C locale. */
  function ToLower(b: byte): byte
  {
    if 'A' as int <= b <= 'Z' as int then b + 32 else b
  }

  /** What _strncmp_lwr checks at index i: both strings go on, and agree there up to
      case. */
  predicate AgreeAt(s0: seq<byte>, s1: seq<byte>, i: nat)
  {
    At(s0, i) != 0 && At(s1, i) != 0 && ToLower(At(s0, i)) == ToLower(At(s1, i))
  }

  /** _strncmp_lwr (main.c:69-77): 0 when the first c bytes of both strings are present
      and equal up to case, 1 otherwise. */
  method StrncmpLwr(s0: seq<byte>, s1: seq<byte>, c: nat) returns (r: int)
    ensures r in {0, 1}
    ensures r == 0 <==> forall i :: 0 <= i < c ==> AgreeAt(s0, s1, i)
  {
    var i := 0;
    while i < c
      invariant i <= c
      invariant forall t :: 0 <= t < i ==> AgreeAt(s0, s1, t)
    {
      if At(s0, i) == 0 || At(s1, i) == 0 {
        assert !AgreeAt(s0, s1, i);
        return 1;
      }
      if ToLower(At(s0, i)) != ToLower(At(s1, i)) {
        assert !AgreeAt(s0, s1, i);
        return 1;
      }
      i := i + 1;
    }
    return 0;
  }

  /** The acceptance test of find_usb_device (main.c:120-130) on the serial string a
      device reports. */
  predicate NameMatches(name: seq<byte>, serial: seq<byte>)
  {
    CStrLen(serial) >= CStrLen(name) && forall i :: 0 <= i < CStrLen(name) ==> AgreeAt(name, serial, i)
  }

  /** A device is accepted exactly when its serial string is at least as long as the
      name and starts with the name up to case; the NUL checks of _strncmp_lwr can then
      never fire. */
  lemma NameMatchesIsCasePrefix(name: seq<byte>, serial: seq<byte>)
    ensures NameMatches(name, serial) <==>
      && |UntilNul(serial)| >= |UntilNul(name)|
      && forall i :: 0 <= i < |UntilNul(name)| ==> ToLower(UntilNul(name)[i]) == ToLower(UntilNul(serial)[i])
  {
    var n, s := UntilNul(name), UntilNul(serial);
    if |s| >= |n| {
      forall i | 0 <= i < |n|
        ensures AgreeAt(name, serial, i) <==> ToLower(n[i]) == ToLower(s[i])
      {
        assert At(name, i) == n[i] && At(serial, i) == s[i];
      }
    }
  }

  /** Case is ignored on both sides. */
  lemma MatchIgnoresCase(name: seq<byte>, serial: seq<byte>)
    requires |name| == |serial| && forall i :: 0 <= i < |name| ==> name[i] != 0 && serial[i] != 0
    requires forall i :: 0 <= i < |name| ==> ToLower(name[i]) == ToLower(serial[i])
    ensures NameMatches(name, serial) && NameMatches(serial, name)
  {
    NoNulUntilNul(name);
    NoNulUntilNul(serial);
  }

  /** A string without NUL is its own C string. */
  lemma {:induction false} NoNulUntilNul(s: seq<byte>)
    requires forall i :: 0 <= i < |s| ==> s[i] != 0
    ensures UntilNul(s) == s
  {
    if s != [] {
      NoNulUntilNul(s[1..]);
    }
  }
}
