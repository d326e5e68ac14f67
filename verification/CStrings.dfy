/** Strings that end at a NUL, and searching in them. */
module CStrings {
  import opened Octets

  const NUL: Byte := 0

  predicate Without(s: Bytes, c: Byte) {
    forall i :: 0 <= i < |s| ==> s[i] != c
  }

  /** The string that starts here: everything before the first NUL. */
  function CString(s: Bytes): Bytes {
    if s == [] || s[0] == NUL then [] else [s[0]] + CString(s[1..])
  }

  /** Where `c` is first found, or the length. */
  function Find(s: Bytes, c: Byte): (i: nat)
    ensures i <= |s| && (forall j :: 0 <= j < i ==> s[j] != c) && (i < |s| ==> s[i] == c)
  {
    if s == [] || s[0] == c then 0
    else
      var i := Find(s[1..], c);
      assert forall j :: 0 < j < |s| ==> s[j] == s[1..][j - 1];
      i + 1
  }

  lemma {:induction false} CStringOfPlain(s: Bytes)
    requires Without(s, NUL)
    ensures CString(s) == s
  {
    if s != [] {
      assert Without(s[1..], NUL) by {
        forall i | 0 <= i < |s[1..]|
          ensures s[1..][i] != NUL
        {
          assert s[1..][i] == s[i + 1];
        }
      }
      CStringOfPlain(s[1..]);
    }
  }

  lemma {:induction false} CStringAt(s: Bytes, i: nat)
    requires i < |s| && s[i] == NUL && Without(s[..i], NUL)
    ensures CString(s) == s[..i]
  {
    if i > 0 {
      assert s[0] == s[..i][0];
      assert s[1..][..i - 1] == s[..i][1..];
      assert Without(s[1..][..i - 1], NUL);
      CStringAt(s[1..], i - 1);
      assert s[..i] == [s[0]] + s[1..][..i - 1];
    }
  }

  lemma {:induction false} CStringIsPrefix(s: Bytes)
    ensures Without(CString(s), NUL) && |CString(s)| <= |s| && CString(s) == s[..|CString(s)|]
  {
    if s != [] && s[0] != NUL {
      CStringIsPrefix(s[1..]);
      var t := CString(s[1..]);
      assert [s[0]] + s[1..][..|t|] == s[..|t| + 1];
    }
  }

  lemma {:induction false} CStringStops(s: Bytes)
    ensures |CString(s)| <= |s| && (|CString(s)| < |s| ==> s[|CString(s)|] == NUL)
  {
    if s != [] && s[0] != NUL {
      CStringStops(s[1..]);
    }
  }

  lemma FirstAt(s: Bytes, c: Byte, i: nat)
    requires i < |s| && s[i] == c && forall j :: 0 <= j < i ==> s[j] != c
    ensures Find(s, c) == i
  {
  }
}
