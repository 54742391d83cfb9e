/**
  DNS names in src/dnsquery/dnsquery.c: writing a domain in wire format, reading a name back through
  compression pointers (RFC 1035 sections 3.1 and 4.1.4), and why the reader always stops.
 */
module DnsName {
  import opened Common

  const DOT: byte := 46

  /** The bytes from the packet on; those past its end are whatever memory holds. */
  type Memory = nat -> byte

  /** Labels joined with dots. */
  function Join(labels: seq<seq<byte>>): seq<byte> {
    if labels == [] then [] else if |labels| == 1 then labels[0] else labels[0] + [DOT] + Join(labels[1..])
  }

  predicate Label(l: seq<byte>) { 1 <= |l| <= 63 && DOT !in l }

  predicate Labels(ls: seq<seq<byte>>) { forall i :: 0 <= i < |ls| ==> Label(ls[i]) }

  /** Length-prefixed labels. */
  function Flat(labels: seq<seq<byte>>): (b: seq<byte>)
    requires Labels(labels)
  {
    if labels == [] then [] else [|labels[0]|] + labels[0] + Flat(labels[1..])
  }

  // ---- writing ----------------------------------------------------------------------------------------

  /** Conversion to unsigned char. */
  function Byte(x: nat): byte { x % 256 }

  lemma SmallByte(x: nat)
    requires x < 256
    ensures Byte(x) == x
  {
  }

  /** The wire format of a text, given the part of the current label already passed. */
  function Wire(text: seq<byte>, cur: seq<byte>): (w: seq<byte>)
    ensures |w| == |text| + |cur| + 2
    decreases |text|
  {
    if text == [] then [Byte(|cur|)] + cur + [0]
    else if text[0] == DOT then [Byte(|cur|)] + cur + Wire(text[1..], [])
    else Wire(text[1..], cur + [text[0]])
  }

  lemma {:induction false} WirePrefix(l: seq<byte>, rest: seq<byte>, cur: seq<byte>)
    requires DOT !in l
    ensures Wire(l + rest, cur) == Wire(rest, cur + l)
    decreases |l|
  {
    if l == [] {
      assert l + rest == rest && cur + l == cur;
    } else {
      assert (l + rest)[1..] == l[1..] + rest;
      WirePrefix(l[1..], rest, cur + [l[0]]);
      assert cur + [l[0]] + l[1..] == cur + l;
    }
  }

  lemma WireEnd(l: seq<byte>)
    requires Label(l)
    ensures Wire(l, []) == [|l|] + l + [0]
  {
    WirePrefix(l, [], []);
    EmptyWire(l);
    hide Wire;
    assert l + [] == l && [] + l == l;
  }

  lemma EmptyWire(l: seq<byte>)
    requires |l| < 256
    ensures Wire([], l) == [|l|] + l + [0]
  {
    hide Wire, Byte;
    WireLast(l);
    SmallByte(|l|);
  }

  lemma WireDot(l: seq<byte>, rest: seq<byte>)
    requires Label(l)
    ensures Wire(l + [DOT] + rest, []) == [|l|] + l + Wire(rest, [])
  {
    hide Byte;
    SmallByte(|l|);
    WirePrefix(l, [DOT] + rest, []);
    WireNext([DOT] + rest, l);
    assert l + ([DOT] + rest) == l + [DOT] + rest && [] + l == l;
    assert ([DOT] + rest)[1..] == rest;
  }

  /** A domain of labels of 1 to 63 bytes is written as RFC 1035 section 3.1 says. */
  lemma {:induction false} WireIsFlat(labels: seq<seq<byte>>)
    requires labels != [] && Labels(labels)
    ensures Wire(Join(labels), []) == Flat(labels) + [0]
    decreases |labels|
  {
    hide Wire;
    var l := labels[0];
    assert Label(l);
    if |labels| == 1 {
      WireEnd(l);
      assert Flat(labels) == [|l|] + l + Flat(labels[1..]) && labels[1..] == [];
    } else {
      WireDot(l, Join(labels[1..]));
      WireIsFlat(labels[1..]);
    }
  }

  /** The stretches between the dots of a text, the first one continuing cur. */
  function Pieces(text: seq<byte>, cur: seq<byte>): (ls: seq<seq<byte>>)
    ensures ls != []
    decreases |text|
  {
    if text == [] then [cur]
    else if text[0] == DOT then [cur] + Pieces(text[1..], [])
    else Pieces(text[1..], cur + [text[0]])
  }

  lemma {:induction false} JoinPieces(text: seq<byte>, cur: seq<byte>)
    ensures Join(Pieces(text, cur)) == cur + text
    decreases |text|
  {
    if text == [] {
      assert cur + text == cur;
    } else if text[0] == DOT {
      JoinPieces(text[1..], []);
      var rest := Pieces(text[1..], []);
      assert ([cur] + rest)[1..] == rest;
      assert [DOT] + ([] + text[1..]) == text;
      assert cur + [DOT] + ([] + text[1..]) == cur + text;
    } else {
      JoinPieces(text[1..], cur + [text[0]]);
      assert cur + [text[0]] + text[1..] == cur + text;
    }
  }

  lemma {:induction false} PiecesPrefix(l: seq<byte>, rest: seq<byte>, cur: seq<byte>)
    requires DOT !in l
    ensures Pieces(l + rest, cur) == Pieces(rest, cur + l)
    decreases |l|
  {
    if l == [] {
      assert l + rest == rest && cur + l == cur;
    } else {
      assert (l + rest)[1..] == l[1..] + rest;
      PiecesPrefix(l[1..], rest, cur + [l[0]]);
      assert cur + [l[0]] + l[1..] == cur + l;
    }
  }

  lemma {:induction false} PiecesOfJoin(labels: seq<seq<byte>>)
    requires labels != [] && Labels(labels)
    ensures Pieces(Join(labels), []) == labels
    decreases |labels|
  {
    var l := labels[0];
    assert Label(l) && [] + l == l;
    if |labels| == 1 {
      PiecesPrefix(l, [], []);
      assert l + [] == l;
    } else {
      var rest := [DOT] + Join(labels[1..]);
      PiecesPrefix(l, rest, []);
      assert l + rest == Join(labels) && rest[1..] == Join(labels[1..]);
      PiecesOfJoin(labels[1..]);
    }
  }

  /** Each stretch behind its length, in eight bits. */
  function Prefixed(ps: seq<seq<byte>>): seq<byte> {
    if ps == [] then [] else [|ps[0]| % 256] + ps[0] + Prefixed(ps[1..])
  }

  /** Every text is written as its stretches, whatever their lengths, and a zero byte. */
  lemma {:induction false} WireIs(text: seq<byte>, cur: seq<byte>)
    ensures Wire(text, cur) == Prefixed(Pieces(text, cur)) + [0]
    decreases |text|
  {
    if text == [] {
      assert [cur][1..] == [] && Prefixed([cur]) == [|cur| % 256] + cur + [];
    } else if text[0] == DOT {
      WireIs(text[1..], []);
      var rest := Pieces(text[1..], []);
      assert ([cur] + rest)[1..] == rest;
      assert Prefixed([cur] + rest) == [|cur| % 256] + cur + Prefixed(rest);
    } else {
      WireIs(text[1..], cur + [text[0]]);
    }
  }

  /** The bytes written are the name of RFC 1035 section 3.1 that the text means. */
  ghost predicate WrittenRight(text: seq<byte>) {
    exists ls :: Labels(ls) && Join(ls) == text && Wire(text, []) == Flat(ls) + [0]
  }

  /** A text is written right if and only if every stretch between dots has 1 to 63 bytes. */
  lemma WireRightIff(text: seq<byte>)
    ensures WrittenRight(text) <==> Labels(Pieces(text, []))
  {
    hide Wire;
    var ps := Pieces(text, []);
    JoinPieces(text, []);
    assert [] + text == text;
    if Labels(ps) {
      WireIsFlat(ps);
    } else if ls :| Labels(ls) && Join(ls) == text && Wire(text, []) == Flat(ls) + [0] {
      assert |Wire(text, [])| == |text| + 2;
      if ls != [] { PiecesOfJoin(ls); }
      assert false;
    }
  }

  /** The empty name comes out as two zero bytes, one more than the root of the standard. */
  lemma WireOfRoot()
    ensures Wire([], []) == [0, 0] && !WrittenRight([])
  {
    WireRightIff([]);
    assert Pieces([], [])[0] == [];
  }

  /** Nor is the fully qualified form of a name written right, nor a name with an empty or a long label. */
  lemma WrittenWrong(long: seq<byte>)
    requires |long| > 63 && DOT !in long
    ensures Wire([97, DOT], []) == [1, 97, 0, 0] && !WrittenRight([97, DOT])
    ensures Wire([97, DOT, DOT, 98], []) == [1, 97, 0, 1, 98, 0] && !WrittenRight([97, DOT, DOT, 98])
    ensures !WrittenRight(long)
  {
    QualifiedWire();
    WireRightIff([97, DOT]);
    PiecesPrefix([97], [DOT], []);
    assert [97] + [DOT] == [97, DOT] && [] + [97] == [97];
    assert Pieces([DOT], [97]) == [[97]] + Pieces([], []) && Pieces([DOT], [97])[1] == [];
    DoubleDotWire();
    WireRightIff([97, DOT, DOT, 98]);
    PiecesPrefix([97], [DOT, DOT, 98], []);
    assert [97] + [DOT, DOT, 98] == [97, DOT, DOT, 98];
    assert [DOT, DOT, 98][1..] == [DOT, 98];
    assert Pieces([DOT, DOT, 98], [97]) == [[97]] + Pieces([DOT, 98], []) && Pieces([DOT, 98], [])[0] == [];
    assert Pieces([DOT, DOT, 98], [97])[1] == [];
    WireRightIff(long);
    PiecesPrefix(long, [], []);
    assert long + [] == long && [] + long == long;
    assert Pieces(long, [])[0] == long;
  }

  lemma QualifiedWire()
    ensures Wire([97, DOT], []) == [1, 97, 0, 0]
  {
    WireNext([97, DOT], []);
    assert [97, DOT][1..] == [DOT] && [] + [97] == [97];
    WireNext([DOT], [97]);
    WireLast([]);
  }

  lemma DoubleDotWire()
    ensures Wire([97, DOT, DOT, 98], []) == [1, 97, 0, 1, 98, 0]
  {
    WireNext([97, DOT, DOT, 98], []);
    assert [97, DOT, DOT, 98][1..] == [DOT, DOT, 98] && [] + [97] == [97];
    WireNext([DOT, DOT, 98], [97]);
    assert [DOT, DOT, 98][1..] == [DOT, 98];
    WireNext([DOT, 98], []);
    assert [DOT, 98][1..] == [98];
    WireNext([98], []);
    assert [98][1..] == [] && [] + [98] == [98];
    WireLast([98]);
  }

  lemma WireNext(text: seq<byte>, cur: seq<byte>)
    requires text != []
    ensures Wire(text, cur) == if text[0] == DOT then [Byte(|cur|)] + cur + Wire(text[1..], [])
      else Wire(text[1..], cur + [text[0]])
  {
  }

  lemma WireLast(cur: seq<byte>)
    ensures Wire([], cur) == [Byte(|cur|)] + cur + [0]
  {
  }

  /** What is written so far, with the length byte of the label from `start` still to patch, continues to the whole. */
  predicate Partial(domain: seq<byte>, i: nat, b: seq<byte>, start: nat) {
    && i <= |domain| && |b| == i + 1 && start < |b|
    && b[..start] + Wire(domain[i..], b[start + 1..]) == Wire(domain, [])
  }

  /** Patching the length byte and beginning the next label. */
  lemma Patched(b: seq<byte>, start: nat, x: byte, w: seq<byte>)
    requires start < |b|
    ensures var c := b[start := x] + [0];
      |c| == |b| + 1 && c[|b| + 1..] == [] && b[..start] + ([x] + b[start + 1..] + w) == c[..|b|] + w
  {
    var c := b[start := x] + [0];
    assert c[..|b|] == b[..start] + [x] + b[start + 1..];
  }

  lemma PartialDot(domain: seq<byte>, i: nat, b: seq<byte>, start: nat)
    requires Partial(domain, i, b, start) && i < |domain| && domain[i] == DOT
    ensures Partial(domain, i + 1, b[start := Byte(|b| - start - 1)] + [0], |b|)
  {
    hide Wire, Byte;
    WireNext(domain[i..], b[start + 1..]);
    assert domain[i..][1..] == domain[i + 1..];
    Patched(b, start, Byte(|b| - start - 1), Wire(domain[i + 1..], []));
  }

  lemma PartialChar(domain: seq<byte>, i: nat, b: seq<byte>, start: nat)
    requires Partial(domain, i, b, start) && i < |domain| && domain[i] != DOT
    ensures Partial(domain, i + 1, b + [domain[i]], start)
  {
    hide Wire;
    WireNext(domain[i..], b[start + 1..]);
    assert domain[i..][1..] == domain[i + 1..];
    assert (b + [domain[i]])[start + 1..] == b[start + 1..] + [domain[i]];
    assert (b + [domain[i]])[..start] == b[..start];
  }

  lemma PartialEnd(domain: seq<byte>, b: seq<byte>, start: nat)
    requires Partial(domain, |domain|, b, start)
    ensures b[start := Byte(|b| - start - 1)] + [0] == Wire(domain, [])
  {
    hide Wire, Byte;
    assert domain[|domain|..] == [];
    WireLast(b[start + 1..]);
  }

  lemma PartialStart(domain: seq<byte>)
    ensures Partial(domain, 0, [0], 0)
  {
    hide Wire;
    assert domain[0..] == domain;
  }

  /** domain_to_dns_format, back-patching each length byte. */
  method DomainToDns(domain: seq<byte>, buf: array<byte>) returns (outLen: nat)
    requires |domain| + 2 <= buf.Length
    modifies buf
    ensures outLen == |domain| + 2 && buf[..outLen] == Wire(domain, [])
  {
    hide Partial, Wire, Byte;
    var pos, start := 0, 0;
    buf[pos] := 0;
    pos := pos + 1;
    PartialStart(domain);
    assert buf[..pos] == [0];
    var i := 0;
    while i < |domain|
      invariant i <= |domain| && pos == i + 1 && start < pos
      invariant Partial(domain, i, buf[..pos], start)
    {
      ghost var b := buf[..pos];
      if domain[i] == DOT {
        PartialDot(domain, i, b, start);
        buf[start] := Byte(pos - start - 1);
        assert buf[..pos] == b[start := Byte(pos - start - 1)];
        start := pos;
        buf[pos] := 0;
        assert buf[..pos + 1] == buf[..pos] + [0];
      } else {
        PartialChar(domain, i, b, start);
        buf[pos] := domain[i];
        assert buf[..pos + 1] == b + [domain[i]];
      }
      pos := pos + 1;
      i := i + 1;
    }
    PartialEnd(domain, buf[..pos], start);
    buf[start] := Byte(pos - start - 1);
    buf[pos] := 0;
    pos := pos + 1;
    outLen := pos;
  }

  // ---- reading ----------------------------------------------------------------------------------------

  function Slice(m: Memory, r: nat, n: nat): (s: seq<byte>)
    ensures |s| == n
  {
    seq(n, i requires 0 <= i => m(r + i))
  }

  /** The state of read_dns_name's loop: position, text so far, whether it jumped, bytes counted, jumps left. */
  datatype Reading = Reading(r: nat, out: seq<byte>, jumped: bool, consumed: nat, jumps: nat)

  function Pointer(m: Memory, r: nat): nat { m(r) % 64 * 256 + m(r + 1) }

  function Counted(s: Reading, n: nat): nat { if s.jumped then s.consumed else s.consumed + n }

  /** The loop, from a state to the text and the count; it ends for every memory. */
  function Read(m: Memory, n: nat, s: Reading): (seq<byte>, nat)
    decreases s.jumps, if s.r < n then n - s.r else 0
  {
    if m(s.r) == 0 || s.r >= n then (s.out, Counted(s, 1))
    else if m(s.r) >= 192 then
      var t := Reading(Pointer(m, s.r), s.out, true, Counted(s, 2), if s.jumps == 0 then 0 else s.jumps - 1);
      if t.jumps == 0 then (t.out, t.consumed) else Read(m, n, t)
    else
      var len := m(s.r);
      Read(m, n, s.(r := s.r + 1 + len, out := s.out + Slice(m, s.r + 1, len) + [DOT], consumed := Counted(s, 1 + len)))
  }

  /** The last dot gives way to the terminator. */
  function Trim(out: seq<byte>): seq<byte> { if out != [] && out[|out| - 1] == DOT then out[..|out| - 1] else out }

  function ReadName(m: Memory, n: nat, r: nat): (seq<byte>, nat) {
    var (out, consumed) := Read(m, n, Reading(r, [], false, 0, 10));
    (Trim(out), consumed)
  }

  /** read_dns_name. */
  method ReadDnsName(m: Memory, n: nat, start: nat) returns (name: seq<byte>, consumed: nat)
    ensures (name, consumed) == ReadName(m, n, start)
  {
    var r: nat, jumped, jumps := start, false, 10;
    name, consumed := [], 0;
    ghost var goal := Read(m, n, Reading(start, [], false, 0, 10));
    var broke := false;
    while m(r) != 0
      invariant jumps > 0 && Read(m, n, Reading(r, name, jumped, consumed, jumps)) == goal
      decreases jumps, if r < n then n - r else 0
    {
      if r >= n { break; }
      if m(r) >= 192 {
        var offset: nat := m(r) % 64 * 256 + m(r + 1);
        if !jumped { consumed := consumed + 2; }
        r := offset;
        jumped := true;
        jumps := jumps - 1;
        if jumps <= 0 {
          name := Trim(name);
          return;
        }
      } else {
        var len := m(r);
        r := r + 1;
        if !jumped { consumed := consumed + 1; }
        name, consumed := CopyLabel(m, r, len, jumped, name, consumed);
        r := r + len;
        name := name + [DOT];
      }
    }
    if !jumped { consumed := consumed + 1; }
    name := Trim(name);
  }

  method CopyLabel(m: Memory, r: nat, len: nat, jumped: bool, out0: seq<byte>,
      consumed0: nat) returns (out: seq<byte>, consumed: nat)
    ensures out == out0 + Slice(m, r, len) && consumed == if jumped then consumed0 else consumed0 + len
  {
    out, consumed := out0, consumed0;
    var i := 0;
    while i < len
      invariant i <= len && out == out0 + Slice(m, r, i) && consumed == if jumped then consumed0 else consumed0 + i
    {
      out := out + [m(r + i)];
      if !jumped { consumed := consumed + 1; }
      i := i + 1;
    }
  }

  // ---- reading what was written ------------------------------------------------------------------------

  /** The bytes b stand at r, before the end of the packet. */
  predicate Stored(m: Memory, n: nat, r: nat, b: seq<byte>) { r + |b| <= n && Slice(m, r, |b|) == b }

  lemma StoredAt(m: Memory, n: nat, r: nat, b: seq<byte>, i: nat)
    requires Stored(m, n, r, b) && i < |b|
    ensures m(r + i) == b[i]
  {
    assert Slice(m, r, |b|)[i] == m(r + i);
  }

  lemma StoredParts(m: Memory, n: nat, r: nat, a: seq<byte>, b: seq<byte>)
    requires Stored(m, n, r, a + b)
    ensures Stored(m, n, r, a) && Stored(m, n, r + |a|, b)
  {
    var s := Slice(m, r, |a + b|);
    assert s[..|a|] == a && s[|a|..] == b;
    assert Slice(m, r, |a|) == s[..|a|] && Slice(m, r + |a|, |b|) == s[|a|..];
  }

  /** Each label with the dot that follows it. */
  function Dotted(labels: seq<seq<byte>>): seq<byte> {
    if labels == [] then [] else labels[0] + [DOT] + Dotted(labels[1..])
  }

  lemma {:induction false} DottedTrim(labels: seq<seq<byte>>)
    ensures Trim(Dotted(labels)) == Join(labels)
    decreases |labels|
  {
    if |labels| > 1 {
      DottedTrim(labels[1..]);
      var d := Dotted(labels[1..]);
      DottedEnds(labels[1..]);
      assert Dotted(labels) == labels[0] + [DOT] + d;
    } else if |labels| == 1 {
      assert labels[1..] == [];
    }
  }

  lemma DottedEnds(labels: seq<seq<byte>>)
    ensures labels != [] ==> Dotted(labels) != [] && Dotted(labels)[|Dotted(labels)| - 1] == DOT
    decreases |labels|
  {
    if |labels| > 1 { DottedEnds(labels[1..]); }
  }

  lemma ReadLabel(m: Memory, n: nat, s: Reading, l: seq<byte>)
    requires Label(l) && Stored(m, n, s.r, [|l|] + l)
    ensures Read(m, n, s)
      == Read(m, n, s.(r := s.r + 1 + |l|, out := s.out + l + [DOT], consumed := Counted(s, 1 + |l|)))
  {
    StoredParts(m, n, s.r, [|l|], l);
    StoredAt(m, n, s.r, [|l|], 0);
  }

  lemma SameReading(s: Reading, t: Reading, n: nat, m: nat, k: nat, e: seq<byte>, d: seq<byte>)
    requires t.r == s.r + m && t.consumed == Counted(s, m) && t.jumped == s.jumped && t.jumps == s.jumps && k == m + n
    requires t.out + e == s.out + d
    ensures t.(r := t.r + n, out := t.out + e, consumed := Counted(t, n))
         == s.(r := s.r + k, out := s.out + d, consumed := Counted(s, k))
  {
  }

  lemma Regroup(out: seq<byte>, l: seq<byte>, d: seq<byte>)
    ensures out + l + [DOT] + d == out + (l + [DOT] + d)
  {
  }

  lemma FlatStep(labels: seq<seq<byte>>)
    requires labels != [] && Labels(labels)
    ensures Label(labels[0]) && Labels(labels[1..])
    ensures Dotted(labels) == labels[0] + [DOT] + Dotted(labels[1..])
    ensures |labels[0]| < 256 && Flat(labels) == [|labels[0]|] + labels[0] + Flat(labels[1..])
  {
    assert Label(labels[0]);
  }

  /** Reading runs over stored labels. */
  lemma {:induction false} ReadLabels(m: Memory, n: nat, s: Reading, labels: seq<seq<byte>>)
    requires Labels(labels) && Stored(m, n, s.r, Flat(labels))
    ensures Read(m, n, s)
         == Read(m, n, s.(r := s.r + |Flat(labels)|, out := s.out + Dotted(labels),
           consumed := Counted(s, |Flat(labels)|)))
    decreases |labels|
  {
    if labels == [] {
      assert s.out + [] == s.out;
    } else {
      hide *;
      FlatStep(labels);
      var l, rest := labels[0], Flat(labels[1..]);
      StoredParts(m, n, s.r, [|l|] + l, rest);
      ReadLabel(m, n, s, l);
      var t := s.(r := s.r + 1 + |l|, out := s.out + l + [DOT], consumed := Counted(s, 1 + |l|));
      ReadLabels(m, n, t, labels[1..]);
      Regroup(s.out, l, Dotted(labels[1..]));
      SameReading(s, t, |rest|, 1 + |l|, |Flat(labels)|, Dotted(labels[1..]), Dotted(labels));
    }
  }

  /** read_dns_name inverts domain_to_dns_format and consumes exactly what that wrote. */
  lemma RoundTrip(m: Memory, n: nat, r: nat, labels: seq<seq<byte>>)
    requires labels != [] && Labels(labels) && Stored(m, n, r, Wire(Join(labels), []))
    ensures ReadName(m, n, r) == (Join(labels), |Wire(Join(labels), [])|)
  {
    hide Wire, Stored, Flat, Join, Trim, Dotted;
    WireIsFlat(labels);
    StoredParts(m, n, r, Flat(labels), [0]);
    StoredAt(m, n, r + |Flat(labels)|, [0], 0);
    ReadLabels(m, n, Reading(r, [], false, 0, 10), labels);
    assert [] + Dotted(labels) == Dotted(labels);
    DottedTrim(labels);
  }

  // ---- compression -------------------------------------------------------------------------------------

  /** A run of labels at a place in the packet. */
  datatype Segment = Segment(at: nat, labels: seq<seq<byte>>)

  /** The two bytes at e are a compression pointer: two bits set, and an offset of fourteen bits. */
  predicate Leads(m: Memory, e: nat, at: nat) {
    m(e) >= 0xC0 && at == (m(e) as int - 0xC0) * 0x100 + m(e + 1) as int
  }

  lemma LeadsThere(m: Memory, e: nat, at: nat)
    requires Leads(m, e, at)
    ensures m(e) >= 192 && Pointer(m, e) == at
  {
  }

  /** A name in pieces: each but the last followed by a pointer to the next, the last by the root. */
  predicate Chain(m: Memory, n: nat, segs: seq<Segment>)
    decreases |segs|
  {
    segs != [] && Labels(segs[0].labels)
    && Stored(m, n, segs[0].at, Flat(segs[0].labels))
    && var e := segs[0].at + |Flat(segs[0].labels)|;
      e < n && if |segs| == 1 then m(e) == 0 else Leads(m, e, segs[1].at) && Chain(m, n, segs[1..])
  }

  function AllLabels(segs: seq<Segment>): seq<seq<byte>> {
    if segs == [] then [] else segs[0].labels + AllLabels(segs[1..])
  }

  /** The pieces that are read when j more jumps are allowed. */
  function Reached(segs: seq<Segment>, j: nat): seq<Segment> { if |segs| <= j then segs else segs[..j] }

  lemma {:induction false} DottedJoin(a: seq<seq<byte>>, b: seq<seq<byte>>)
    ensures Dotted(a + b) == Dotted(a) + Dotted(b)
    decreases |a|
  {
    if a == [] {
      assert a + b == b;
    } else {
      assert (a + b)[1..] == a[1..] + b;
      DottedJoin(a[1..], b);
    }
  }

  lemma {:induction false} ReadChain(m: Memory, n: nat, s: Reading, segs: seq<Segment>)
    requires Chain(m, n, segs) && s.r == segs[0].at && s.jumps > 0
    ensures Read(m, n, s) == (s.out + Dotted(AllLabels(Reached(segs, s.jumps))),
                              Counted(s, |Flat(segs[0].labels)| + if |segs| == 1 then 1 else 2))
    decreases |segs|
  {
    hide Stored, Flat, Dotted, Labels, Read, Leads;
    var ls := segs[0].labels;
    var t := s.(r := s.r + |Flat(ls)|, out := s.out + Dotted(ls), consumed := Counted(s, |Flat(ls)|));
    var reached := Reached(segs, s.jumps);
    ReadLabels(m, n, s, ls);
    DottedJoin(ls, AllLabels(reached[1..]));
    assert reached[0] == segs[0];
    assert AllLabels(reached) == ls + AllLabels(reached[1..]);
    hide AllLabels;
    if |segs| == 1 || s.jumps == 1 {
      assert reached[1..] == [];
      NoneDotted();
      if |segs| > 1 { LeadsThere(m, t.r, segs[1].at); }
      assert Dotted(ls) + [] == Dotted(ls);
      ReadEnd(m, n, t);
    } else {
      var u := Reading(segs[1].at, t.out, true, Counted(t, 2), t.jumps - 1);
      LeadsThere(m, t.r, segs[1].at);
      ReadJump(m, n, t, segs[1].at);
      ReadChain(m, n, u, segs[1..]);
      assert reached[1..] == Reached(segs[1..], s.jumps - 1);
      assert u.out + Dotted(AllLabels(reached[1..])) == s.out + Dotted(AllLabels(reached));
    }
  }

  lemma NoneDotted()
    ensures Dotted(AllLabels([])) == []
  {
  }

  lemma ReadEnd(m: Memory, n: nat, s: Reading)
    requires s.r < n && (m(s.r) == 0 || (m(s.r) >= 192 && s.jumps == 1))
    ensures Read(m, n, s) == (s.out, Counted(s, if m(s.r) == 0 then 1 else 2))
  {
  }

  lemma ReadJump(m: Memory, n: nat, s: Reading, at: nat)
    requires s.r < n && m(s.r) >= 192 && Pointer(m, s.r) == at && s.jumps > 1
    ensures Read(m, n, s) == Read(m, n, Reading(at, s.out, true, Counted(s, 2), s.jumps - 1))
  {
  }

  /**
    A name in pieces: the first ten pieces are read, so a name with at most nine pointers in full, and only the
    first piece with its end is consumed.
   */
  lemma Compressed(m: Memory, n: nat, segs: seq<Segment>)
    requires Chain(m, n, segs)
    ensures ReadName(m, n, segs[0].at)
      == (Join(AllLabels(Reached(segs, 10))), |Flat(segs[0].labels)| + if |segs| == 1 then 1 else 2)
    ensures |segs| <= 10 ==> ReadName(m, n, segs[0].at).0 == Join(AllLabels(segs))
  {
    ReadChain(m, n, Reading(segs[0].at, [], false, 0, 10), segs);
    var d := Dotted(AllLabels(Reached(segs, 10)));
    assert [] + d == d;
    DottedTrim(AllLabels(Reached(segs, 10)));
  }

  /** At an eleventh piece with labels of its own the name is cut short. */
  lemma CutShort(m: Memory, n: nat, segs: seq<Segment>)
    requires Chain(m, n, segs)
    ensures ReadName(m, n, segs[0].at).0 == Join(AllLabels(segs)) <==> AllLabels(segs) == AllLabels(Reached(segs, 10))
  {
    Compressed(m, n, segs);
    var k := |Reached(segs, 10)|;
    var a, b := AllLabels(segs[..k]), AllLabels(segs[k..]);
    assert segs[..k] == Reached(segs, 10) && segs == segs[..k] + segs[k..];
    AllJoin(segs[..k], segs[k..]);
    ChainLabels(m, n, segs);
    if b != [] { JoinLonger(a, b); } else { assert a + b == a; }
  }

  lemma {:induction false} AllJoin(s: seq<Segment>, t: seq<Segment>)
    ensures AllLabels(s + t) == AllLabels(s) + AllLabels(t)
    decreases |s|
  {
    if s == [] {
      assert s + t == t;
    } else {
      assert (s + t)[1..] == s[1..] + t;
      AllJoin(s[1..], t);
    }
  }

  lemma {:induction false} ChainLabels(m: Memory, n: nat, segs: seq<Segment>)
    requires Chain(m, n, segs)
    ensures Labels(AllLabels(segs))
    decreases |segs|
  {
    if |segs| > 1 { ChainLabels(m, n, segs[1..]); } else { assert segs[1..] == []; }
  }

  lemma {:induction false} DottedSize(labels: seq<seq<byte>>)
    requires Labels(labels)
    ensures |Dotted(labels)| == if labels == [] then 0 else |Join(labels)| + 1
    ensures labels != [] ==> Join(labels) != []
    decreases |labels|
  {
    if labels == [] {
    } else {
      assert Label(labels[0]);
      DottedSize(labels[1..]);
    }
  }

  /** More labels, longer text. */
  lemma JoinLonger(a: seq<seq<byte>>, b: seq<seq<byte>>)
    requires Labels(a + b) && b != []
    ensures Join(a + b) != Join(a)
  {
    forall i | 0 <= i < |a| ensures Label(a[i]) { assert (a + b)[i] == a[i]; }
    forall i | 0 <= i < |b| ensures Label(b[i]) { assert (a + b)[|a| + i] == b[i]; }
    DottedJoin(a, b);
    DottedSize(a);
    DottedSize(b);
    DottedSize(a + b);
  }

  // ---- a name that is cut -------------------------------------------------------------------------------

  /** Eleven pieces of one label each, four bytes apart, and a pointer from each to the next. */
  function Eleven(r: nat): byte {
    if r >= 44 || r == 42 || r == 43 then 0
    else if r % 4 == 0 then 1 else if r % 4 == 1 then 97 else if r % 4 == 2 then 192 else r + 1
  }

  function PiecesFrom(i: nat): (segs: seq<Segment>)
    requires i <= 10
    ensures |segs| == 11 - i && segs[0] == Segment(4 * i, [[97]])
    decreases 10 - i
  {
    if i == 10 then [Segment(40, [[97]])] else [Segment(4 * i, [[97]])] + PiecesFrom(i + 1)
  }

  lemma {:induction false} ElevenChain(i: nat)
    requires i <= 10
    ensures Chain(Eleven, 43, PiecesFrom(i)) && |AllLabels(PiecesFrom(i))| == 11 - i
    decreases 10 - i
  {
    hide *;
    OneLabel(4 * i);
    PieceEnd(i);
    PiecesStep(i);
    if i < 10 {
      ElevenChain(i + 1);
      ChainMore(Eleven, 43, Segment(4 * i, [[97]]), PiecesFrom(i + 1));
    } else {
      ChainLast(Eleven, 43, Segment(40, [[97]]));
    }
  }

  lemma PiecesStep(i: nat)
    requires i <= 10
    ensures PiecesFrom(i) == if i == 10 then [Segment(40, [[97]])] else [Segment(4 * i, [[97]])] + PiecesFrom(i + 1)
  {
  }

  lemma ChainMore(m: Memory, n: nat, s: Segment, rest: seq<Segment>)
    requires Labels(s.labels) && Stored(m, n, s.at, Flat(s.labels)) && rest != [] && Chain(m, n, rest)
    requires var e := s.at + |Flat(s.labels)|; e < n && Leads(m, e, rest[0].at)
    ensures Chain(m, n, [s] + rest) && |AllLabels([s] + rest)| == |s.labels| + |AllLabels(rest)|
  {
    hide Stored, Flat, Labels, Leads, Chain;
    assert ([s] + rest)[1..] == rest;
    ChainFold(m, n, [s] + rest);
  }

  lemma ChainFold(m: Memory, n: nat, segs: seq<Segment>)
    requires |segs| > 1 && Labels(segs[0].labels) && Stored(m, n, segs[0].at, Flat(segs[0].labels))
    requires var e := segs[0].at + |Flat(segs[0].labels)|; e < n && Leads(m, e, segs[1].at)
    requires Chain(m, n, segs[1..])
    ensures Chain(m, n, segs)
  {
  }

  lemma ChainLast(m: Memory, n: nat, s: Segment)
    requires Labels(s.labels) && Stored(m, n, s.at, Flat(s.labels))
    requires var e := s.at + |Flat(s.labels)|; e < n && m(e) == 0
    ensures Chain(m, n, [s]) && |AllLabels([s])| == |s.labels|
  {
    assert [s][1..] == [] && AllLabels([]) == [];
  }

  lemma PieceEnd(i: nat)
    requires i <= 10
    ensures i < 10 ==> Leads(Eleven, 4 * i + 2, 4 * (i + 1))
    ensures i == 10 ==> Eleven(42) == 0
  {
  }

  lemma OneLabel(r: nat)
    requires r <= 40 && r % 4 == 0
    ensures Labels([[97]]) && Flat([[97]]) == [1, 97] && Stored(Eleven, 43, r, [1, 97])
  {
    assert [[97]][1..] == [] && Label([97]);
    assert Flat([[97]]) == [1] + [97] + Flat([]);
    assert Slice(Eleven, r, 2) == [Eleven(r), Eleven(r + 1)];
  }

  /** The eleventh label is not read. */
  lemma EleventhIsCut()
    ensures Chain(Eleven, 43, PiecesFrom(0))
    ensures ReadName(Eleven, 43, 0).0 != Join(AllLabels(PiecesFrom(0)))
  {
    hide Chain, ReadName, Join, PiecesFrom;
    ElevenChain(0);
    var segs := PiecesFrom(0);
    CutShort(Eleven, 43, segs);
    ElevenChain(10);
    LastPiece(0);
    AllJoin(segs[..10], segs[10..]);
    assert segs == segs[..10] + segs[10..];
  }

  lemma {:induction false} LastPiece(i: nat)
    requires i <= 10
    ensures PiecesFrom(i)[10 - i..] == PiecesFrom(10)
    decreases 10 - i
  {
    if i < 10 {
      LastPiece(i + 1);
      assert PiecesFrom(i)[1..] == PiecesFrom(i + 1);
      assert PiecesFrom(i)[10 - i..] == PiecesFrom(i)[1..][10 - (i + 1)..];
    }
  }
}
