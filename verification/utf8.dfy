/** UTF-8 validation (svn_utf_private.h): `svn_utf__is_valid`,
    `svn_utf__cstring_is_valid`, `svn_utf__last_valid` and
    `svn_utf__last_valid2`.

    The reference definition of "valid" is the grammar of Table 3-6 in
    section 3.9 of the Unicode 4.0 standard (the same as the `UTF8-char`
    rule of section 4 of RFC 3629): `IsChar` recognises one well-formed
    character and `WellFormed` a concatenation of them.  The validators
    themselves are a byte-driven state machine (`Step`, `Scan`) and a
    character-by-character scanner (`LastValid2`); both are proved to agree
    with the grammar. */
module Utf8 {
  import opened Wrappers

  newtype byte = x: int | 0 <= x < 0x100

  /** A continuation byte, 80..BF. */
  predicate IsTail(b: byte) {
    0x80 <= b <= 0xBF
  }

  /** `c` is exactly one well-formed UTF-8 character (Unicode 4.0, Table 3-6). */
  predicate IsChar(c: seq<byte>) {
    if |c| == 1 then
      c[0] <= 0x7F
    else if |c| == 2 then
      0xC2 <= c[0] <= 0xDF && IsTail(c[1])
    else if |c| == 3 then
      && (|| (c[0] == 0xE0 && 0xA0 <= c[1] <= 0xBF)
          || (0xE1 <= c[0] <= 0xEC && IsTail(c[1]))
          || (c[0] == 0xED && 0x80 <= c[1] <= 0x9F)
          || (0xEE <= c[0] <= 0xEF && IsTail(c[1])))
      && IsTail(c[2])
    else if |c| == 4 then
      && (|| (c[0] == 0xF0 && 0x90 <= c[1] <= 0xBF)
          || (0xF1 <= c[0] <= 0xF3 && IsTail(c[1]))
          || (c[0] == 0xF4 && 0x80 <= c[1] <= 0x8F))
      && IsTail(c[2]) && IsTail(c[3])
    else
      false
  }

  /** `s` splits into whole well-formed characters; the empty input does. */
  ghost predicate WellFormed(s: seq<byte>)
    decreases |s|
  {
    || |s| == 0
    || exists k :: 1 <= k <= |s| && k <= 4 && IsChar(s[..k]) && WellFormed(s[k..])
  }

  /** The number of bytes of a character whose first byte is `b`, or 0 when
      no well-formed character starts with `b`. */
  function LeadLength(b: byte): (n: nat)
    ensures n <= 4
  {
    if b <= 0x7F then 1
    else if 0xC2 <= b <= 0xDF then 2
    else if 0xE0 <= b <= 0xEF then 3
    else if 0xF0 <= b <= 0xF4 then 4
    else 0
  }

  /** UTF-8 is prefix free: the first byte of a character fixes its length. */
  lemma LeadByteFixesLength(c: seq<byte>)
    requires IsChar(c)
    ensures |c| == LeadLength(c[0])
  {
  }

  /** The length of the well-formed character at the front of `s`, if any. */
  function CharLength(s: seq<byte>): (r: Option<nat>)
    ensures r.Some? ==> 1 <= r.value <= 4 && r.value <= |s| && IsChar(s[..r.value])
    ensures r.None? ==> |s| == 0 || LeadLength(s[0]) == 0 || LeadLength(s[0]) > |s|
                        || !IsChar(s[..LeadLength(s[0])])
  {
    if |s| == 0 then None
    else
      var n := LeadLength(s[0]);
      if 1 <= n <= |s| && IsChar(s[..n]) then Some(n) else None
  }

  /** Whatever character starts `s` is the one `CharLength` finds. */
  lemma CharLengthUnique(s: seq<byte>, k: nat)
    requires 1 <= k <= |s| && IsChar(s[..k])
    ensures CharLength(s) == Some(k)
  {
    LeadByteFixesLength(s[..k]);
  }

  /** The length of the longest prefix of `s` made of whole characters,
      found by decoding one character after the other. */
  function ValidPrefixLength(s: seq<byte>): (n: nat)
    ensures n <= |s|
    decreases |s|
  {
    if |s| == 0 then 0
    else
      match CharLength(s)
      case None => 0
      case Some(k) => k + ValidPrefixLength(s[k..])
  }

  lemma {:induction false} ValidPrefixIsWellFormed(s: seq<byte>)
    ensures WellFormed(s[..ValidPrefixLength(s)])
    decreases |s|
  {
    var n := ValidPrefixLength(s);
    if n > 0 {
      var k := CharLength(s).value;
      var p := s[..n];
      ValidPrefixIsWellFormed(s[k..]);
      assert n == k + ValidPrefixLength(s[k..]);
      assert p[..k] == s[..k];
      assert p[k..] == s[k..n];
      assert s[k..n] == s[k..][..n - k];
      WellFormedCons(p, k);
    }
  }

  /** A character followed by well-formed bytes is well formed. */
  lemma WellFormedCons(p: seq<byte>, k: nat)
    requires 1 <= k <= |p| && k <= 4 && IsChar(p[..k]) && WellFormed(p[k..])
    ensures WellFormed(p)
  {
  }

  lemma {:induction false} ValidPrefixStopsAtBadChar(s: seq<byte>)
    requires ValidPrefixLength(s) < |s|
    ensures CharLength(s[ValidPrefixLength(s)..]).None?
    decreases |s|
  {
    var n := ValidPrefixLength(s);
    if n > 0 {
      var k := CharLength(s).value;
      ValidPrefixStopsAtBadChar(s[k..]);
      assert s[k..][ValidPrefixLength(s[k..])..] == s[n..];
    }
  }

  lemma {:induction false} WellFormedIffWholePrefix(s: seq<byte>)
    ensures WellFormed(s) <==> ValidPrefixLength(s) == |s|
    decreases |s|
  {
    if |s| > 0 {
      if WellFormed(s) {
        var k :| 1 <= k <= |s| && k <= 4 && IsChar(s[..k]) && WellFormed(s[k..]);
        CharLengthUnique(s, k);
        WellFormedIffWholePrefix(s[k..]);
      }
      if ValidPrefixLength(s) == |s| {
        var k := CharLength(s).value;
        WellFormedIffWholePrefix(s[k..]);
        assert IsChar(s[..k]) && WellFormed(s[k..]);
      }
    }
  }

  // ---------------------------------------------------------------------
  // The table-driven validator: a state machine fed one byte at a time.

  /** The states of the validating automaton: `Start` between characters,
      the others inside a character, `Error` after an ill-formed one. */
  datatype State =
    | Start
    | Need1        // one more continuation byte
    | Need2        // two more continuation bytes
    | Need3        // three more continuation bytes
    | AfterE0      // next byte must be A0..BF
    | AfterED      // next byte must be 80..9F
    | AfterF0      // next byte must be 90..BF
    | AfterF4      // next byte must be 80..8F
    | Error

  function Step(st: State, b: byte): State {
    match st
    case Start =>
      if b <= 0x7F then Start
      else if 0xC2 <= b <= 0xDF then Need1
      else if b == 0xE0 then AfterE0
      else if b == 0xED then AfterED
      else if 0xE1 <= b <= 0xEF then Need2
      else if b == 0xF0 then AfterF0
      else if b == 0xF4 then AfterF4
      else if 0xF1 <= b <= 0xF3 then Need3
      else Error
    case Need1 => if IsTail(b) then Start else Error
    case Need2 => if IsTail(b) then Need1 else Error
    case Need3 => if IsTail(b) then Need2 else Error
    case AfterE0 => if 0xA0 <= b <= 0xBF then Need1 else Error
    case AfterED => if 0x80 <= b <= 0x9F then Need1 else Error
    case AfterF0 => if 0x90 <= b <= 0xBF then Need2 else Error
    case AfterF4 => if 0x80 <= b <= 0x8F then Need2 else Error
    case Error => Error
  }

  /** Where a scan ended: the final state, and the position just after the
      last byte at which the automaton was back in `Start`. */
  datatype ScanResult = ScanResult(state: State, start: nat)

  /** Feed `s[i..]` to the automaton in state `st`; `start` is the last
      position seen in state `Start`. */
  function Scan(s: seq<byte>, i: nat, st: State, start: nat): ScanResult
    requires i <= |s|
    decreases |s| - i
  {
    if i == |s| then ScanResult(st, start)
    else
      var next := Step(st, s[i]);
      Scan(s, i + 1, next, if next == Start then i + 1 else start)
  }

  lemma {:induction false} ErrorIsFinal(s: seq<byte>, i: nat, start: nat)
    requires i <= |s|
    ensures Scan(s, i, Error, start) == ScanResult(Error, start)
    decreases |s| - i
  {
    if i < |s| {
      ErrorIsFinal(s, i + 1, start);
    }
  }

  /** A whole character takes the automaton from `Start` back to `Start`
      without passing through it. */
  lemma ScanWholeChar(s: seq<byte>, i: nat)
    requires i < |s| && CharLength(s[i..]).Some?
    ensures var k := CharLength(s[i..]).value;
            Scan(s, i, Start, i) == Scan(s, i + k, Start, i + k)
  {
    var k := CharLength(s[i..]).value;
    var c := s[i..][..k];
    assert c[0] == s[i];
    if k == 1 {
    } else if k == 2 {
      assert c[1] == s[i + 1];
      var st1 := Step(Start, s[i]);
      assert Scan(s, i, Start, i) == Scan(s, i + 1, st1, i);
    } else if k == 3 {
      assert c[1] == s[i + 1] && c[2] == s[i + 2];
      var st1 := Step(Start, s[i]);
      var st2 := Step(st1, s[i + 1]);
      assert Scan(s, i, Start, i) == Scan(s, i + 1, st1, i);
      assert Scan(s, i + 1, st1, i) == Scan(s, i + 2, st2, i);
    } else {
      assert c[1] == s[i + 1] && c[2] == s[i + 2] && c[3] == s[i + 3];
      var st1 := Step(Start, s[i]);
      var st2 := Step(st1, s[i + 1]);
      var st3 := Step(st2, s[i + 2]);
      assert Scan(s, i, Start, i) == Scan(s, i + 1, st1, i);
      assert Scan(s, i + 1, st1, i) == Scan(s, i + 2, st2, i);
      assert Scan(s, i + 2, st2, i) == Scan(s, i + 3, st3, i);
    }
  }

  /** At a byte where no character starts, the automaton never returns to
      `Start`: the scan ends outside `Start` and remembers position `i`. */
  lemma ScanBadChar(s: seq<byte>, i: nat)
    requires i < |s| && CharLength(s[i..]).None?
    ensures Scan(s, i, Start, i).start == i
    ensures Scan(s, i, Start, i).state != Start
  {
    var t := s[i..];
    assert t[..1] == [s[i]];
    var st1 := Step(Start, s[i]);
    assert st1 != Start;
    assert Scan(s, i, Start, i) == Scan(s, i + 1, st1, i);
    if st1 == Error {
      ErrorIsFinal(s, i + 1, i);
    } else if i + 1 < |s| {
      assert t[..2] == [s[i], s[i + 1]];
      var st2 := Step(st1, s[i + 1]);
      assert st2 != Start;
      assert Scan(s, i + 1, st1, i) == Scan(s, i + 2, st2, i);
      if st2 == Error {
        ErrorIsFinal(s, i + 2, i);
      } else if i + 2 < |s| {
        assert t[..3] == [s[i], s[i + 1], s[i + 2]];
        var st3 := Step(st2, s[i + 2]);
        assert st3 != Start;
        assert Scan(s, i + 2, st2, i) == Scan(s, i + 3, st3, i);
        if st3 == Error {
          ErrorIsFinal(s, i + 3, i);
        } else if i + 3 < |s| {
          assert t[..4] == [s[i], s[i + 1], s[i + 2], s[i + 3]];
          var st4 := Step(st3, s[i + 3]);
          assert st4 == Error;
          assert Scan(s, i + 3, st3, i) == Scan(s, i + 4, st4, i);
          ErrorIsFinal(s, i + 4, i);
        }
      }
    }
  }

  /** Scanning from a character boundary ends at the longest valid prefix,
      and in `Start` exactly when that prefix is everything. */
  lemma {:induction false} ScanFromBoundary(s: seq<byte>, i: nat)
    requires i <= |s|
    ensures Scan(s, i, Start, i).start == i + ValidPrefixLength(s[i..])
    ensures Scan(s, i, Start, i).state == Start <==> Scan(s, i, Start, i).start == |s|
    decreases |s| - i
  {
    if i == |s| {
      ScanFromEnd(s, i);
    } else {
      match CharLength(s[i..])
      case None => ScanFromBadChar(s, i);
      case Some(k) =>
        ScanFromBoundary(s, i + k);
        ScanFromChar(s, i, k);
    }
  }

  /** The boundary case at the end of the input. */
  lemma ScanFromEnd(s: seq<byte>, i: nat)
    requires i == |s|
    ensures Scan(s, i, Start, i).start == i + ValidPrefixLength(s[i..])
    ensures Scan(s, i, Start, i).state == Start <==> Scan(s, i, Start, i).start == |s|
  {
    assert s[i..] == [];
  }

  /** The boundary case at a byte where no character starts. */
  lemma ScanFromBadChar(s: seq<byte>, i: nat)
    requires i < |s| && CharLength(s[i..]).None?
    ensures Scan(s, i, Start, i).start == i + ValidPrefixLength(s[i..])
    ensures Scan(s, i, Start, i).state != Start && Scan(s, i, Start, i).start != |s|
  {
    ScanBadChar(s, i);
    ValidPrefixAtBadChar(s[i..]);
  }

  /** The boundary case at a whole character, given the case after it. */
  lemma ScanFromChar(s: seq<byte>, i: nat, k: nat)
    requires i < |s| && CharLength(s[i..]) == Some(k)
    requires Scan(s, i + k, Start, i + k).start == i + k + ValidPrefixLength(s[i + k..])
    requires Scan(s, i + k, Start, i + k).state == Start <==> Scan(s, i + k, Start, i + k).start == |s|
    ensures Scan(s, i, Start, i).start == i + ValidPrefixLength(s[i..])
    ensures Scan(s, i, Start, i).state == Start <==> Scan(s, i, Start, i).start == |s|
  {
    var t := s[i..];
    ScanWholeChar(s, i);
    assert Scan(s, i, Start, i) == Scan(s, i + k, Start, i + k);
    assert t[k..] == s[i + k..];
    ValidPrefixAtChar(t);
    assert ValidPrefixLength(t) == k + ValidPrefixLength(s[i + k..]);
  }

  /** No valid prefix starts with a byte sequence that is no character. */
  lemma ValidPrefixAtBadChar(t: seq<byte>)
    requires CharLength(t).None?
    ensures ValidPrefixLength(t) == 0
  {
  }

  /** A valid prefix starting with a character is that character and the
      valid prefix after it. */
  lemma ValidPrefixAtChar(t: seq<byte>)
    requires CharLength(t).Some?
    ensures ValidPrefixLength(t) == CharLength(t).value + ValidPrefixLength(t[CharLength(t).value..])
  {
  }

  /** `svn_utf__is_valid`: run the automaton over all of `s` and accept
      when it ends between characters. */
  function IsValid(s: seq<byte>): (r: bool)
    ensures r <==> WellFormed(s)
  {
    ScanFromBoundary(s, 0);
    WellFormedIffWholePrefix(s);
    assert s[0..] == s;
    Scan(s, 0, Start, 0).state == Start
  }

  /** `svn_utf__last_valid`: the position after the last whole valid
      character before the first ill-formed one. */
  function LastValid(s: seq<byte>): (p: nat)
    ensures p <= |s| && WellFormed(s[..p])
    ensures p == |s| <==> WellFormed(s)
    ensures p < |s| ==> forall k :: 1 <= k <= |s| - p ==> !IsChar(s[p..][..k])
  {
    ScanFromBoundary(s, 0);
    assert s[0..] == s;
    ValidPrefixFacts(s);
    Scan(s, 0, Start, 0).start
  }

  /** The automaton's position is the end of the longest prefix made of
      whole valid characters. */
  lemma LastValidIsLongestValidPrefix(s: seq<byte>)
    ensures LastValid(s) == ValidPrefixLength(s)
  {
    ScanFromBoundary(s, 0);
    assert s[0..] == s;
  }

  lemma ValidPrefixFacts(s: seq<byte>)
    ensures WellFormed(s[..ValidPrefixLength(s)])
    ensures ValidPrefixLength(s) == |s| <==> WellFormed(s)
    ensures ValidPrefixLength(s) < |s| ==> CharLength(s[ValidPrefixLength(s)..]).None?
  {
    ValidPrefixIsWellFormed(s);
    WellFormedIffWholePrefix(s);
    if ValidPrefixLength(s) < |s| {
      ValidPrefixStopsAtBadChar(s);
    }
  }

  /** The position of the terminating NUL of a C string. */
  function NulIndex(buf: seq<byte>): (n: nat)
    requires 0 in buf
    ensures n < |buf| && buf[n] == 0
    ensures forall j :: 0 <= j < n ==> buf[j] != 0
  {
    if buf[0] == 0 then 0 else 1 + NulIndex(buf[1..])
  }

  /** `svn_utf__cstring_is_valid`: the automaton of `IsValid` run over the
      bytes before the terminating NUL. */
  method CStringIsValid(buf: seq<byte>) returns (r: bool)
    requires 0 in buf
    ensures r == IsValid(buf[..NulIndex(buf)])
    ensures r <==> WellFormed(buf[..NulIndex(buf)])
  {
    ghost var text := buf[..NulIndex(buf)];
    var st := Start;
    var i := 0;
    ghost var start := 0;
    while buf[i] != 0
      invariant i <= |text|
      invariant Scan(text, i, st, start) == Scan(text, 0, Start, 0)
      decreases |text| - i
    {
      st := Step(st, buf[i]);
      start := if st == Start then i + 1 else start;
      i := i + 1;
    }
    r := st == Start;
  }

  /** Both validators share the automaton: a string is valid exactly when
      its last valid position is its end. */
  lemma IsValidIffLastValidAtEnd(s: seq<byte>)
    ensures IsValid(s) <==> LastValid(s) == |s|
  {
  }

  /** The longest valid prefix is unique: any split point that is a
      well-formed prefix followed by no character is `LastValid`. */
  lemma LastValidIsUnique(s: seq<byte>, p: nat)
    requires p <= |s| && WellFormed(s[..p])
    requires p < |s| ==> CharLength(s[p..]).None?
    ensures p == LastValid(s)
  {
    BoundaryPrefix(s, p);
    LastValidIsLongestValidPrefix(s);
  }

  lemma {:induction false} BoundaryPrefix(s: seq<byte>, p: nat)
    requires p <= |s| && WellFormed(s[..p])
    requires p < |s| ==> CharLength(s[p..]).None?
    ensures p == ValidPrefixLength(s)
    decreases p
  {
    if p == 0 {
      if |s| > 0 {
        assert s[0..] == s;
        ValidPrefixAtBadChar(s);
      }
    } else {
      var pre := s[..p];
      var k :| 1 <= k <= |pre| && k <= 4 && IsChar(pre[..k]) && WellFormed(pre[k..]);
      SliceFacts(s, k, p);
      CharLengthUnique(s, k);
      BoundaryPrefix(s[k..], p - k);
      ValidPrefixAtChar(s);
    }
  }

  /** How the slices of a split at `k` inside a prefix of length `p` relate. */
  lemma SliceFacts(s: seq<byte>, k: nat, p: nat)
    requires k <= p <= |s|
    ensures s[..p][..k] == s[..k]
    ensures s[..p][k..] == s[k..][..p - k]
    ensures s[k..][p - k..] == s[p..]
  {
  }

  /** `svn_utf__last_valid2`: decode character by character with explicit
      byte-range tests and stop at the first one that is not well formed. */
  method LastValid2(s: seq<byte>) returns (p: nat)
    ensures p == LastValid(s)
  {
    var i := 0;
    while i < |s|
      invariant i <= |s|
      invariant ValidPrefixLength(s) == i + ValidPrefixLength(s[i..])
    {
      var n := DecodeOne(s[i..]);
      if n == 0 {
        LastValidAt(s, i);
        return i;
      }
      i := NextBoundary(s, i, n);
    }
    LastValidAt(s, i);
    p := i;
  }

  /** Where the scan stops, at the end or before a byte sequence that is no
      character, is the position `last_valid` returns. */
  lemma LastValidAt(s: seq<byte>, i: nat)
    requires i <= |s| && ValidPrefixLength(s) == i + ValidPrefixLength(s[i..])
    requires i == |s| || CharLength(s[i..]).None?
    ensures LastValid(s) == i
  {
    if i == |s| {
      assert s[i..] == [];
    } else {
      ValidPrefixAtBadChar(s[i..]);
    }
    LastValidIsLongestValidPrefix(s);
  }

  /** The position after the character of length `n` at `i`. */
  function NextBoundary(s: seq<byte>, i: nat, n: nat): (j: nat)
    requires i < |s| && CharLength(s[i..]) == Some(n)
    requires ValidPrefixLength(s) == i + ValidPrefixLength(s[i..])
    ensures i < j <= |s|
    ensures ValidPrefixLength(s) == j + ValidPrefixLength(s[j..])
  {
    ValidPrefixAfterChar(s, i, n);
    i + n
  }

  /** One whole character at `i` moves the valid prefix of the rest on by
      its length. */
  lemma ValidPrefixAfterChar(s: seq<byte>, i: nat, n: nat)
    requires i < |s| && CharLength(s[i..]) == Some(n)
    ensures i + n <= |s|
    ensures ValidPrefixLength(s[i..]) == n + ValidPrefixLength(s[i + n..])
  {
    var t := s[i..];
    ValidPrefixAtChar(t);
    assert t[n..] == s[i + n..];
  }

  /** The byte-range tests `svn_utf__last_valid2` applies to one character:
      the length of the character at the front of `t`, or 0 when none is. */
  method DecodeOne(t: seq<byte>) returns (n: nat)
    requires |t| > 0
    ensures n == 0 ==> CharLength(t).None?
    ensures n != 0 ==> CharLength(t) == Some(n)
  {
    var b := t[0];
    n := 0;
    if b <= 0x7F {
      n := 1;
    } else if 0xC2 <= b <= 0xDF {
      if 1 < |t| && IsTail(t[1]) {
        n := 2;
      }
    } else if b == 0xE0 {
      if 2 < |t| && 0xA0 <= t[1] <= 0xBF && IsTail(t[2]) {
        n := 3;
      }
    } else if b == 0xED {
      if 2 < |t| && 0x80 <= t[1] <= 0x9F && IsTail(t[2]) {
        n := 3;
      }
    } else if 0xE1 <= b <= 0xEF {
      if 2 < |t| && IsTail(t[1]) && IsTail(t[2]) {
        n := 3;
      }
    } else if b == 0xF0 {
      if 3 < |t| && 0x90 <= t[1] <= 0xBF && IsTail(t[2]) && IsTail(t[3]) {
        n := 4;
      }
    } else if 0xF1 <= b <= 0xF3 {
      if 3 < |t| && IsTail(t[1]) && IsTail(t[2]) && IsTail(t[3]) {
        n := 4;
      }
    } else if b == 0xF4 {
      if 3 < |t| && 0x80 <= t[1] <= 0x8F && IsTail(t[2]) && IsTail(t[3]) {
        n := 4;
      }
    }
  }
}
