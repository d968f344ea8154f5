/**
 Byte-stuffed, checked frames: `PppFrame` and `PppDeframe`, the exact set of bodies the receiver
 accepts, the round trip, the shape of a frame on the wire and what corruption is always caught.
 */
module Ppp {
  import opened ByteStrings
  import opened FrameCheck
  import opened ShiftRegister
  import opened Wrappers

  const FLAG: Byte := 0x7E
  const ESC: Byte := 0x7D
  const MASK: Byte := 0x20

  function Masked(c: Byte): Byte {
    c ^ MASK
  }

  predicate Special(c: Byte) {
    c == ESC || c == FLAG
  }

  // ---- Sending ----

  function Escaped(c: Byte): Bytes {
    if Special(c) then [ESC, Masked(c)] else [c]
  }

  function Stuff(m: Bytes): Bytes {
    if m == [] then [] else Stuff(m[..|m| - 1]) + Escaped(m[|m| - 1])
  }

  /** What travels between the two flags. */
  function Body(m: Bytes): Bytes {
    Stuff(m + Trailer(m))
  }

  function Frame(m: Bytes): Bytes {
    [FLAG] + Body(m) + [FLAG]
  }

  method AddEscaped(out: Bytes, c: Byte) returns (out': Bytes)
    ensures out' == out + Escaped(c)
  {
    if c == ESC || c == FLAG {
      out' := out + [ESC];
      out' := out' + [c ^ MASK];
    } else {
      out' := out + [c];
    }
  }

  method PppFrame(input: Bytes) returns (out: Bytes)
    ensures out == Frame(input)
  {
    var fcs := new Fcs();
    out := [FLAG];
    var i := 0;
    while i < |input|
      invariant 0 <= i <= |input|
      invariant out == [FLAG] + Stuff(input[..i])
      invariant fcs.Valid() && fcs.seen == input[..i]
    {
      FrameStep(input, i);
      out := AddEscaped(out, input[i]);
      var _ := fcs.Write(input[i]);
      i := i + 1;
    }
    assert input[..i] == input;
    FrameClosed(input, fcs.fcs);
    out := AddEscaped(out, LowOctet(fcs.Result()));
    out := AddEscaped(out, HighOctet(fcs.Result()));
    out := out + [FLAG];
  }

  lemma FrameClosed(m: Bytes, s: bv16)
    requires CellsOf(s) == FcsAfter(m)
    ensures [FLAG] + Stuff(m) + Escaped(LowOctet(!s)) + Escaped(HighOctet(!s)) + [FLAG] == Frame(m)
  {
    TrailerOctets(m, s);
    var lo, hi := LowOctet(!s), HighOctet(!s);
    BodyParts(m, lo, hi);
    Reassociate([FLAG], Stuff(m), Escaped(lo), Escaped(hi));
  }

  lemma Reassociate(f: Bytes, a: Bytes, b: Bytes, c: Bytes)
    ensures f + a + b + c == f + (a + b + c)
  {
  }

  lemma FrameStep(m: Bytes, i: nat)
    requires i < |m|
    ensures [FLAG] + Stuff(m[..i + 1]) == [FLAG] + Stuff(m[..i]) + Escaped(m[i])
    ensures m[..i + 1] == m[..i] + [m[i]]
  {
    assert m[..i + 1] == m[..i] + [m[i]];
    StuffSnoc(m[..i], m[i]);
    assert [FLAG] + (Stuff(m[..i]) + Escaped(m[i])) == [FLAG] + Stuff(m[..i]) + Escaped(m[i]);
  }

  lemma BodyParts(m: Bytes, x: Byte, y: Byte)
    requires Trailer(m) == [x, y]
    ensures Body(m) == Stuff(m) + Escaped(x) + Escaped(y)
  {
    assert m + [x, y] == (m + [x]) + [y];
    StuffSnoc(m + [x], y);
    StuffSnoc(m, x);
  }

  // ---- Receiving ----

  /** Does the byte string end inside an escape? */
  predicate Dangling(s: Bytes) {
    |s| > 0 && s[|s| - 1] == ESC
  }

  /** Every byte but the escapes themselves, masked when an escape stands right before it. */
  function Unstuff(s: Bytes): Bytes {
    if s == [] then []
    else
      var init, c := s[..|s| - 1], s[|s| - 1];
      if c == ESC then Unstuff(init)
      else Unstuff(init) + [if Dangling(init) then Masked(c) else c]
  }

  predicate Accepts(s: Bytes) {
    |s| >= 3 && FLAG !in s && !Dangling(s) && FcsAfter(Unstuff(s)) == RESIDUE
  }

  function Deframe(s: Bytes): (p: Option<Bytes>)
    ensures p.Some? <==> Accepts(s)
  {
    if Accepts(s) then
      ResidueIffTrailer(Unstuff(s));
      Some(Unstuff(s)[..|Unstuff(s)| - 2])
    else None
  }

  /** The body `s` is some stuffing of the payload `p` and its trailer. */
  ghost predicate Carries(s: Bytes, p: Bytes) {
    |s| >= 3 && FLAG !in s && !Dangling(s) && Unstuff(s) == p + Trailer(p)
  }

  /** The receiver accepts exactly the bodies that carry a payload, and yields that payload. */
  lemma DeframeExact(s: Bytes, p: Bytes)
    ensures Deframe(s) == Some(p) <==> Carries(s, p)
  {
    var u := Unstuff(s);
    ResidueIffTrailer(u);
    if Carries(s, p) {
      assert u[..|u| - 2] == p && u[|u| - 2..] == Trailer(p);
    }
    if Deframe(s) == Some(p) {
      assert u == u[..|u| - 2] + u[|u| - 2..];
    }
  }

  /** The bytes before the first flag. */
  function UpToFlag(s: Bytes): Bytes {
    if s == [] || s[0] == FLAG then [] else [s[0]] + UpToFlag(s[1..])
  }

  lemma {:induction false} FlagFound(s: Bytes, i: nat)
    requires i < |s| && s[i] == FLAG && FLAG !in s[..i]
    ensures UpToFlag(s) == s[..i]
  {
    if i > 0 {
      assert s[..i][0] == s[0] && s[..i][1..] == s[1..][..i - 1];
      FlagFound(s[1..], i - 1);
      assert s[..i] == [s[0]] + s[..i][1..];
    }
  }

  /**
   The receiver returns early on short inputs and at a flag; otherwise it removes two octets from its
   result. Is there something to remove when it comes to that?
   */
  predicate PopsSafe(s: Bytes) {
    |s| < 3 || FLAG in s || |Unstuff(s)| >= 2
  }

  /** What a receiver that did not remove octets from too short a vector leaves behind, accepted or not. */
  function LeftBehind(s: Bytes): Bytes
    requires PopsSafe(s)
  {
    if |s| < 3 then []
    else if FLAG in s then Unstuff(UpToFlag(s))
    else Unstuff(s)[..|Unstuff(s)| - 2]
  }

  /**
   The receiver's loop. `tooShort` tells that it came to the removal with fewer than two octets; of
   what is left behind then, nothing is said.
   */
  method PppDeframe(input: Bytes) returns (ok: bool, out: Bytes, ghost tooShort: bool)
    ensures Deframe(input) == if ok then Some(out) else None
    ensures tooShort <==> !PopsSafe(input)
    ensures PopsSafe(input) ==> out == LeftBehind(input)
  {
    hide FcsAfter, CellsOf, Unstuff, Dangling, Trailer;
    out, tooShort := [], false;
    var escFlag := false;
    var fcs := new Fcs();
    if |input| < 3 {
      return false, out, false;
    }
    ghost var done: Bytes := [];
    var count := 0;
    while count < |input|
      invariant 0 <= count <= |input| && done == input[..count]
      invariant FLAG !in done && Scan(out, escFlag) == ScanOf(done)
      invariant fcs.Valid() && fcs.seen == out
    {
      var c := input[count];
      ScanSnoc(done, c);
      PrefixSnoc(input, count);
      if c == ESC {
        escFlag := true;
      } else if c == FLAG {
        ScanIsUnstuff(done);
        FlagFound(input, count);
        return false, out, false;
      } else if escFlag {
        out := out + [c ^ MASK];
        var _ := fcs.Write(c ^ MASK);
        escFlag := false;
      } else {
        var _ := fcs.Write(c);
        out := out + [c];
      }
      done := done + [c];
      count := count + 1;
    }
    WholePrefix(input);
    ScanIsUnstuff(input);
    var fcsCheck := fcs.Result() == 0x0F47;
    ResultIsResidue(fcs.fcs);
    ResidueIffTrailer(out);
    if |out| >= 2 {
      out := out[..|out| - 2];
    } else {
      tooShort := true;
      out := *;
    }
    ok := !escFlag && fcsCheck;
  }

  /** The receiver's loop variables. */
  datatype Scan = Scan(out: Bytes, escFlag: bool)

  function ScanStep(st: Scan, c: Byte): Scan {
    if c == ESC then Scan(st.out, true)
    else if st.escFlag then Scan(st.out + [Masked(c)], false)
    else Scan(st.out + [c], false)
  }

  function ScanOf(s: Bytes): Scan {
    if s == [] then Scan([], false) else ScanStep(ScanOf(s[..|s| - 1]), s[|s| - 1])
  }

  lemma ScanSnoc(s: Bytes, c: Byte)
    ensures ScanOf(s + [c]) == ScanStep(ScanOf(s), c)
  {
    assert (s + [c])[..|s|] == s;
  }

  /** The flag carried through the loop only ever remembers the byte just before. */
  lemma {:induction false} ScanIsUnstuff(s: Bytes)
    ensures ScanOf(s) == Scan(Unstuff(s), Dangling(s))
  {
    if s != [] {
      ScanIsUnstuff(s[..|s| - 1]);
    }
  }

  // ---- Round trip ----

  lemma StuffSnoc(m: Bytes, c: Byte)
    ensures Stuff(m + [c]) == Stuff(m) + Escaped(c)
  {
    assert (m + [c])[..|m|] == m;
  }

  lemma UnstuffSnoc(s: Bytes, c: Byte)
    ensures Unstuff(s + [c]) ==
            if c == ESC then Unstuff(s) else Unstuff(s) + [if Dangling(s) then Masked(c) else c]
    ensures Dangling(s + [c]) == (c == ESC)
  {
    assert (s + [c])[..|s|] == s;
  }

  lemma MaskTwice(c: Byte)
    ensures Masked(Masked(c)) == c
    ensures Special(c) ==> !Special(Masked(c)) && (Masked(c) == 0x5D || Masked(c) == 0x5E)
    ensures Masked(c) == 0x5D <==> c == ESC
    ensures Masked(c) == 0x5E <==> c == FLAG
  {
  }

  lemma UnstuffEscaped(s: Bytes, c: Byte)
    requires !Dangling(s) && FLAG !in s
    ensures Unstuff(s + Escaped(c)) == Unstuff(s) + [c]
    ensures !Dangling(s + Escaped(c)) && FLAG !in s + Escaped(c)
  {
    MaskTwice(c);
    if Special(c) {
      assert s + Escaped(c) == s + [ESC] + [Masked(c)];
      UnstuffSnoc(s, ESC);
      UnstuffSnoc(s + [ESC], Masked(c));
    } else {
      UnstuffSnoc(s, c);
    }
  }

  lemma {:induction false} UnstuffStuff(m: Bytes)
    ensures Unstuff(Stuff(m)) == m && !Dangling(Stuff(m)) && FLAG !in Stuff(m)
    ensures |m| <= |Stuff(m)| <= 2 * |m|
  {
    if m != [] {
      var init, c := m[..|m| - 1], m[|m| - 1];
      UnstuffStuff(init);
      UnstuffEscaped(Stuff(init), c);
      assert m == init + [c];
    }
  }

  /**
   Framing and deframing undo each other for a payload exactly when it is not empty: the two octets
   of an empty payload's body are below the receiver's minimum of three.
   */
  lemma FramingRoundTrip(m: Bytes)
    ensures Deframe(Body(m)) == if m == [] then None else Some(m)
  {
    UnstuffStuff(m + Trailer(m));
    DeframeExact(Body(m), m);
    if m == [] {
      EmptyBody();
    }
  }

  lemma EmptyBody()
    ensures Body([]) == [0x00, 0x00]
  {
    AllOnes();
    TrailerOctets([], 0xFFFF);
    assert LowOctet(!0xFFFF) == 0 && HighOctet(!0xFFFF) == 0;
    StuffSnoc([], 0);
    StuffSnoc([0], 0);
    assert [] + Trailer([]) == [0] + [0] && [0] == [] + [0];
  }

  /** Two payloads never share a frame. */
  lemma FrameInjective(m: Bytes, n: Bytes)
    requires Frame(m) == Frame(n)
    ensures m == n
  {
    assert Frame(m)[1..|Frame(m)| - 1] == Body(m) && Frame(n)[1..|Frame(n)| - 1] == Body(n);
    UnstuffStuff(m + Trailer(m));
    UnstuffStuff(n + Trailer(n));
    assert (m + Trailer(m))[..|m|] == m && (n + Trailer(n))[..|n|] == n;
  }

  // ---- Shape on the wire ----

  function Specials(m: Bytes): (n: nat)
    ensures n <= |m|
  {
    if m == [] then 0 else Specials(m[..|m| - 1]) + (if Special(m[|m| - 1]) then 1 else 0)
  }

  /** An escape at `i` is followed by one of the two masked specials. */
  predicate EscapeUsed(s: Bytes, i: nat)
    requires i < |s|
  {
    s[i] == ESC ==> i + 1 < |s| && (s[i + 1] == 0x5D || s[i + 1] == 0x5E)
  }

  ghost predicate Canonical(s: Bytes) {
    FLAG !in s && forall i :: 0 <= i < |s| ==> EscapeUsed(s, i)
  }

  lemma CanonicalAppend(s: Bytes, e: Bytes)
    requires Canonical(s) && Canonical(e)
    ensures Canonical(s + e)
  {
    forall i | 0 <= i < |s + e|
      ensures EscapeUsed(s + e, i)
    {
      if i < |s| {
        assert EscapeUsed(s, i);
      } else {
        assert EscapeUsed(e, i - |s|);
      }
    }
  }

  lemma EscapedCanonical(c: Byte)
    ensures Canonical(Escaped(c))
  {
    MaskTwice(c);
  }

  lemma {:induction false} StuffCanonical(m: Bytes)
    ensures Canonical(Stuff(m)) && |Stuff(m)| == |m| + Specials(m)
  {
    if m != [] {
      var init, c := m[..|m| - 1], m[|m| - 1];
      StuffCanonical(init);
      EscapedCanonical(c);
      CanonicalAppend(Stuff(init), Escaped(c));
    }
  }

  /** Stuffing produces exactly the canonical strings; on those, unstuffing is its inverse. */
  lemma {:induction false} StuffUnstuffIff(s: Bytes)
    ensures Stuff(Unstuff(s)) == s <==> Canonical(s)
  {
    StuffCanonical(Unstuff(s));
    if Canonical(s) {
      CanonicalIsStuffed(s);
    }
  }

  lemma CanonicalPrefix(s: Bytes, n: nat)
    requires Canonical(s) && n <= |s| && (n > 0 ==> s[n - 1] != ESC)
    ensures Canonical(s[..n])
  {
    forall i | 0 <= i < n
      ensures EscapeUsed(s[..n], i)
    {
      assert EscapeUsed(s, i);
    }
  }

  lemma RestuffPlain(init: Bytes, c: Byte)
    requires Stuff(Unstuff(init)) == init && !Dangling(init) && !Special(c)
    ensures Stuff(Unstuff(init + [c])) == init + [c]
  {
    hide Stuff, Unstuff;
    UnstuffSnoc(init, c);
    StuffSnoc(Unstuff(init), c);
  }

  lemma RestuffEscape(init: Bytes, c: Byte)
    requires Stuff(Unstuff(init)) == init && (c == 0x5D || c == 0x5E)
    ensures Stuff(Unstuff(init + [ESC] + [c])) == init + [ESC] + [c]
  {
    hide Stuff, Unstuff, Dangling;
    UnstuffSnoc(init, ESC);
    UnstuffSnoc(init + [ESC], c);
    StuffSnoc(Unstuff(init), Masked(c));
    MaskTwice(c);
    assert init + [ESC] + [c] == init + [ESC, c];
    assert Special(Masked(c));
  }

  lemma {:induction false} CanonicalIsStuffed(s: Bytes)
    requires Canonical(s)
    ensures Stuff(Unstuff(s)) == s
    decreases |s|
  {
    if s != [] {
      var n := |s| - 1;
      assert EscapeUsed(s, n);
      if n > 0 && s[n - 1] == ESC {
        CanonicalEscapeEnd(s);
      } else {
        CanonicalPlainEnd(s);
      }
    }
  }

  lemma {:induction false} CanonicalPlainEnd(s: Bytes)
    requires Canonical(s) && |s| > 0 && s[|s| - 1] != ESC && (|s| > 1 ==> s[|s| - 2] != ESC)
    ensures Stuff(Unstuff(s)) == s
    decreases |s|, 0
  {
    hide Stuff, Unstuff;
    var n := |s| - 1;
    CanonicalPrefix(s, n);
    CanonicalIsStuffed(s[..n]);
    RestuffPlain(s[..n], s[n]);
    assert s == s[..n] + [s[n]];
  }

  lemma {:induction false} CanonicalEscapeEnd(s: Bytes)
    requires Canonical(s) && |s| > 1 && s[|s| - 2] == ESC
    ensures Stuff(Unstuff(s)) == s
    decreases |s|, 0
  {
    hide Stuff, Unstuff;
    var n := |s| - 1;
    assert EscapeUsed(s, n - 1);
    if n > 1 {
      assert EscapeUsed(s, n - 2);
    }
    CanonicalPrefix(s, n - 1);
    CanonicalIsStuffed(s[..n - 1]);
    RestuffEscape(s[..n - 1], s[n]);
    assert s == s[..n - 1] + [ESC] + [s[n]];
  }

  /** Flags only at the two ends, canonical in between, and a length that counts the specials. */
  lemma FrameShape(m: Bytes)
    ensures forall i :: 0 <= i < |Frame(m)| ==> (Frame(m)[i] == FLAG <==> i == 0 || i == |Frame(m)| - 1)
    ensures Canonical(Frame(m)[1..|Frame(m)| - 1])
    ensures |Frame(m)| == |m| + 4 + Specials(m + Trailer(m))
    ensures |m| + 4 <= |Frame(m)| <= 2 * |m| + 6
  {
    StuffCanonical(m + Trailer(m));
    assert Frame(m)[1..|Frame(m)| - 1] == Body(m);
    forall i | 1 <= i < |Frame(m)| - 1
      ensures Frame(m)[i] != FLAG
    {
      assert Frame(m)[i] == Body(m)[i - 1];
    }
  }

  // ---- The unguarded pops ----

  function PlainCount(s: Bytes): nat {
    if s == [] then 0 else PlainCount(s[..|s| - 1]) + (if s[|s| - 1] != ESC then 1 else 0)
  }

  /**
   The receiver's removals find two octets exactly for inputs below three octets, inputs with a flag,
   and inputs with at least two octets other than escapes. Three escapes are the shortest failing
   input. No accepted input is affected.
   */
  lemma {:induction false} PopsSafeIff(s: Bytes)
    ensures PopsSafe(s) <==> |s| < 3 || FLAG in s || PlainCount(s) >= 2
    ensures Accepts(s) ==> PopsSafe(s)
    ensures !PopsSafe([ESC, ESC, ESC])
  {
    hide FcsAfter, Trailer, Masked;
    UnstuffLength(s);
    ResidueIffTrailer(Unstuff(s));
    UnstuffSnoc([], ESC);
    UnstuffSnoc([ESC], ESC);
    UnstuffSnoc([ESC, ESC], ESC);
    assert [] + [ESC] == [ESC] && [ESC] + [ESC] == [ESC, ESC] && [ESC, ESC] + [ESC] == [ESC, ESC, ESC];
  }

  lemma {:induction false} UnstuffLength(s: Bytes)
    ensures |Unstuff(s)| == PlainCount(s)
  {
    if s != [] {
      UnstuffLength(s[..|s| - 1]);
    }
  }

  // ---- Detected corruption ----

  /**
   Any number of bytes, any accepted body: change what it decodes to within 16 consecutive bits
   (not byte aligned), and no body that decodes to the changed bytes is accepted.
   */
  lemma BurstRejected(good: Bytes, bad: Bytes, at: nat)
    requires Accepts(good) && Unstuff(bad) != Unstuff(good)
    requires DifferWithin(BitsOf(Unstuff(good)), BitsOf(Unstuff(bad)), at, 16)
    ensures Deframe(bad) == None
  {
    var x, y := Unstuff(good), Unstuff(bad);
    if BitsOf(x) == BitsOf(y) {
      BitsOfInjective(x, y);
    }
    BurstChangesRegister(Ones(16), BitsOf(x), BitsOf(y), at);
  }

  /** Flip any odd number of bits anywhere in what an accepted body decodes to: rejected. */
  lemma OddFlipsRejected(good: Bytes, bad: Bytes)
    requires Accepts(good) && |Unstuff(bad)| == |Unstuff(good)|
    requires Flips(BitsOf(Unstuff(good)), BitsOf(Unstuff(bad))) % 2 == 1
    ensures Deframe(bad) == None
  {
    OddFlipsChangeRegister(Ones(16), BitsOf(Unstuff(good)), BitsOf(Unstuff(bad)));
  }
}
