/**
  The response cache of heavy_utils/dnsserver.c: lookups that expire entries as they scan, saves after a miss,
  eviction when it is full, and clearing by the counter alone.
 */
module DnsCache {
  import opened Common

  type Packet = p: seq<byte> | |p| == PACKET_MAX witness seq(PACKET_MAX, _ => 0)

  const MAX_CACHE: nat := 256
  const PACKET_MAX: nat := 512
  const NAME_MAX: nat := 127
  const TTL: nat := 120

  /** DNSCacheEntry. */
  datatype Entry = Entry(domain: string, qtype: nat, packet: Packet, len: nat, expire: int, used: bool)

  const BLANK: Entry := Entry("", 0, seq(PACKET_MAX, _ => 0), 0, 0, false)

  /** The array and cache_count. */
  datatype Cache = Cache(entries: seq<Entry>, count: nat)

  predicate Sized(c: Cache) {
    && |c.entries| == MAX_CACHE && c.count <= MAX_CACHE
    && forall i :: 0 <= i < MAX_CACHE ==> c.entries[i].len <= PACKET_MAX
  }

  function Lower(s: string): string { seq(|s|, i requires 0 <= i < |s| => LowerChar(s[i])) }

  /** strcasecmp == 0 and the same type. */
  predicate Matches(e: Entry, domain: string, qtype: nat)
  {
    e.used && e.qtype == qtype && Lower(e.domain) == Lower(domain)
  }

  /** What strncpy keeps of a name. */
  function Cut(s: string): (r: string)
    ensures |s| <= NAME_MAX ==> r == s
  {
    if |s| <= NAME_MAX then s else s[..NAME_MAX]
  }

  // ---- the operations ---------------------------------------------------------------------------------

  /** find_in_cache from slot i on. */
  function Scan(es: seq<Entry>, count: nat, i: nat, domain: string, qtype: nat,
      now: int): (r: (seq<Entry>, Option<nat>))
    requires count <= |es|
    ensures |r.0| == |es|
    decreases count - i
  {
    if i >= count then (es, None)
    else if Matches(es[i], domain, qtype) then
      if es[i].expire >= now then (es, Some(i))
      else Scan(es[i := es[i].(used := false)], count, i + 1, domain, qtype, now)
    else Scan(es, count, i + 1, domain, qtype, now)
  }

  function Find(c: Cache, domain: string, qtype: nat, now: int): (Cache, Option<nat>)
    requires Sized(c)
  {
    var (es, r) := Scan(c.entries, c.count, 0, domain, qtype, now);
    (c.(entries := es), r)
  }

  /** The first reusable slot, or count. */
  function Reusable(es: seq<Entry>, count: nat, now: int, i: nat): (k: nat)
    requires i <= count <= |es|
    ensures i <= k <= count
    ensures k < count ==> !es[k].used || es[k].expire < now
    ensures forall j :: i <= j < k ==> es[j].used && es[j].expire >= now
    decreases count - i
  {
    if i == count then i else if !es[i].used || es[i].expire < now then i else Reusable(es, count, now, i + 1)
  }

  /** The slot a save takes; `dice` is the random one for a full cache. */
  function SaveSlot(c: Cache, now: int, dice: nat): (k: nat)
    requires Sized(c) && dice < MAX_CACHE
    ensures k < MAX_CACHE
  {
    var k := Reusable(c.entries, c.count, now, 0);
    if k < c.count then k else if c.count < MAX_CACHE then c.count else dice
  }

  /** save_to_cache. */
  function Save(c: Cache, domain: string, qtype: nat, packet: seq<byte>, ttl: nat, now: int, dice: nat): (r: Cache)
    requires Sized(c) && dice < MAX_CACHE
    ensures Sized(r)
  {
    if |packet| > PACKET_MAX then c
    else
      var k := SaveSlot(c, now, dice);
      var old_ := c.entries[k].packet;
      var e := Entry(Cut(domain), qtype, packet + old_[|packet|..], |packet|,
                     now + (if ttl > 0 then ttl else 60), true);
      Cache(c.entries[k := e], if k < c.count then c.count else k + 1)
  }

  function Clear(c: Cache): Cache { c.(count := 0) }

  /** The id field of a stored packet is overwritten before it is sent. */
  function WithId(p: Packet, id: (byte, byte)): Packet { [id.0, id.1] + p[2..] }

  function Sent(e: Entry): seq<byte>
    requires e.len <= PACKET_MAX
  {
    e.packet[..e.len]
  }

  datatype Answer = FromCache(packet: seq<byte>) | FromUpstream(packet: seq<byte>) | NoAnswer

  /** Steps 4 and 5 of the request loop: look up, else forward and save what comes back. */
  function Query(c: Cache, domain: string, qtype: nat, id: (byte, byte), now: int, reply: Option<seq<byte>>,
      later: int, dice: nat): (Cache, Answer)
    requires Sized(c) && dice < MAX_CACHE && (reply.Some? ==> 0 < |reply.value| <= PACKET_MAX)
  {
    FindSized(c, domain, qtype, now);
    var (c', hit) := Find(c, domain, qtype, now);
    if hit.Some? then
      var e := c'.entries[hit.value].(packet := WithId(c'.entries[hit.value].packet, id));
      (c'.(entries := c'.entries[hit.value := e]), FromCache(Sent(e)))
    else if reply.Some? then
      (Save(c', domain, qtype, reply.value, TTL, later, dice), FromUpstream(reply.value))
    else (c', NoAnswer)
  }

  // ---- lookups ------------------------------------------------------------------------------------------

  /** What a scan does to every slot: matching, expired ones before the hit become unused; nothing else changes. */
  lemma {:induction false} ScanDoes(es: seq<Entry>, count: nat, i: nat, domain: string, qtype: nat, now: int)
    requires i <= count <= |es|
    ensures var (fs, hit) := Scan(es, count, i, domain, qtype, now);
      && (hit.Some? ==> (i <= hit.value < count && fs[hit.value] == es[hit.value]
            && Matches(es[hit.value], domain, qtype) && es[hit.value].expire >= now))
      && (hit.None? ==> forall j :: i <= j < count ==> !Matches(fs[j], domain, qtype))
      && (forall j :: 0 <= j < |es| ==> (fs[j] == es[j]
            || (fs[j] == es[j].(used := false) && Matches(es[j], domain, qtype) && es[j].expire < now)))
      && (hit.None? ==> forall j :: i <= j < count && Matches(es[j], domain, qtype) ==> es[j].expire < now)
    decreases count - i
  {
    hide Matches;
    if i < count {
      if Matches(es[i], domain, qtype) && es[i].expire < now {
        NotUsed(es[i].(used := false), domain, qtype);
        ScanDoes(es[i := es[i].(used := false)], count, i + 1, domain, qtype, now);
      } else if !Matches(es[i], domain, qtype) {
        ScanDoes(es, count, i + 1, domain, qtype, now);
      }
    }
  }

  lemma NotUsed(e: Entry, domain: string, qtype: nat)
    requires !e.used
    ensures !Matches(e, domain, qtype)
  {
  }

  lemma FindSized(c: Cache, domain: string, qtype: nat, now: int)
    requires Sized(c)
    ensures Sized(Find(c, domain, qtype, now).0)
    ensures var hit := Find(c, domain, qtype, now).1; hit.Some? ==> hit.value < c.count
  {
    ScanDoes(c.entries, c.count, 0, domain, qtype, now);
  }

  /** A slot that a lookup at that time would answer from. */
  predicate Live(c: Cache, k: nat, domain: string, qtype: nat, now: int)
    requires Sized(c)
  {
    k < c.count && Matches(c.entries[k], domain, qtype) && c.entries[k].expire >= now
  }

  /** The two cases of one letter: their codes are 32 apart. */
  predicate TwoCases(c: char, d: char) {
    || ('A' <= c <= 'Z' && d as int == c as int + 32)
    || ('A' <= d <= 'Z' && c as int == d as int + 32)
  }

  /** The names have one length and differ at most in the case of letters. */
  predicate Alike(s: string, t: string) {
    |s| == |t| && forall i :: 0 <= i < |s| ==> s[i] == t[i] || TwoCases(s[i], t[i])
  }

  lemma LowerCharIff(c: char, d: char)
    ensures LowerChar(c) == LowerChar(d) <==> c == d || TwoCases(c, d)
  {
    assert 'a' as int == 'A' as int + 32 && 'z' as int == 'Z' as int + 32;
  }

  /** Names are compared in lower case, which tells exactly the ones apart that are not alike. */
  lemma SameNameIff(s: string, t: string)
    ensures Lower(s) == Lower(t) <==> Alike(s, t)
  {
    if |s| == |t| {
      forall i | 0 <= i < |s| ensures Lower(s)[i] == Lower(t)[i] <==> s[i] == t[i] || TwoCases(s[i], t[i]) {
        LowerCharIff(s[i], t[i]);
      }
    } else {
      assert |Lower(s)| != |Lower(t)|;
    }
  }

  /** The history has one place for names that are alike, and a different one for each other name or type. */
  lemma SameKeyIff(s: string, qs: nat, t: string, qt: nat)
    ensures KeyOf(s, qs) == KeyOf(t, qt) <==> Alike(s, t) && qs == qt
  {
    SameNameIff(s, t);
  }

  /** A slot that holds the answer for a name and type at that time. */
  predicate Answers(e: Entry, domain: string, qtype: nat, now: int) {
    e.used && e.qtype == qtype && Alike(e.domain, domain) && e.expire >= now
  }

  /** A lookup hits exactly when some slot in range holds the answer. */
  lemma FindHitIff(c: Cache, domain: string, qtype: nat, now: int)
    requires Sized(c)
    ensures Find(c, domain, qtype, now).1.Some? <==>
      exists k :: 0 <= k < c.count && Answers(c.entries[k], domain, qtype, now)
  {
    FindLiveIff(c, domain, qtype, now);
    forall k: nat | k < c.count
      ensures Live(c, k, domain, qtype, now) <==> Answers(c.entries[k], domain, qtype, now)
    {
      SameNameIff(c.entries[k].domain, domain);
    }
  }

  lemma FindLiveIff(c: Cache, domain: string, qtype: nat, now: int)
    requires Sized(c)
    ensures Find(c, domain, qtype, now).1.Some? <==> exists k :: Live(c, k, domain, qtype, now)
  {
    ScanDoes(c.entries, c.count, 0, domain, qtype, now);
    var hit := Find(c, domain, qtype, now).1;
    if hit.Some? { assert Live(c, hit.value, domain, qtype, now); }
  }

  /** A request is answered from the cache exactly then, and otherwise with what comes from upstream, if anything. */
  lemma AnswerIff(c: Cache, domain: string, qtype: nat, id: (byte, byte), now: int, reply: Option<seq<byte>>,
      later: int, dice: nat)
    requires Sized(c) && dice < MAX_CACHE && (reply.Some? ==> 0 < |reply.value| <= PACKET_MAX)
    ensures var a := Query(c, domain, qtype, id, now, reply, later, dice).1;
      && (a.FromCache? <==> exists k :: 0 <= k < c.count && Answers(c.entries[k], domain, qtype, now))
      && (!a.FromCache? ==> a == if reply.Some? then FromUpstream(reply.value) else NoAnswer)
  {
    hide Answers, Save, Find, Sent, WithId;
    FindSized(c, domain, qtype, now);
    FindHitIff(c, domain, qtype, now);
  }

  // ---- the invariant ------------------------------------------------------------------------------------

  datatype Key = Key(domain: string, qtype: nat)

  function KeyOf(domain: string, qtype: nat): Key { Key(Lower(domain), qtype) }

  /** What was saved last, and until when it holds. */
  datatype Saved = Saved(packet: seq<byte>, expire: int)

  /** The packets saved last under each name and type since the last clear. */
  type History = map<Key, Saved>

  predicate UpToId(a: seq<byte>, b: seq<byte>) { |a| == |b| && forall i :: 2 <= i < |a| ==> a[i] == b[i] }

  /** An entry in use holds the packet last saved under its name and type. */
  predicate Faithful(e: Entry, h: History) {
    e.len <= PACKET_MAX && (e.used ==>
      && KeyOf(e.domain, e.qtype) in h
      && UpToId(Sent(e), h[KeyOf(e.domain, e.qtype)].packet) && e.expire == h[KeyOf(e.domain, e.qtype)].expire)
  }

  predicate SameKey(e: Entry, f: Entry) { e.qtype == f.qtype && Lower(e.domain) == Lower(f.domain) }

  /** No two used slots in range hold one name and type. */
  ghost predicate OneSlotEach(c: Cache)
    requires Sized(c)
  {
    forall i, j :: 0 <= i < j < c.count && c.entries[i].used && c.entries[j].used ==>
      !SameKey(c.entries[i], c.entries[j])
  }

  ghost predicate Inv(c: Cache, h: History) {
    && Sized(c)
    && (forall i :: 0 <= i < c.count ==> Faithful(c.entries[i], h))
    && OneSlotEach(c)
  }

  lemma FindKeepsInv(c: Cache, h: History, domain: string, qtype: nat, now: int)
    requires Inv(c, h)
    ensures Inv(Find(c, domain, qtype, now).0, h)
  {
    hide Matches, UpToId, SameKey, Sent;
    ScanDoes(c.entries, c.count, 0, domain, qtype, now);
    var c' := Find(c, domain, qtype, now).0;
    forall i | 0 <= i < c.count
      ensures Faithful(c'.entries[i], h)
    {
      assert Faithful(c.entries[i], h);
      Unused(c.entries[i], h);
    }
    forall i, j | 0 <= i < j < c.count && c'.entries[i].used && c'.entries[j].used
      ensures !SameKey(c'.entries[i], c'.entries[j])
    {
      assert c'.entries[i] == c.entries[i] && c'.entries[j] == c.entries[j];
    }
  }

  lemma Unused(e: Entry, h: History)
    requires Faithful(e, h)
    ensures Faithful(e.(used := false), h)
  {
  }

  function Lifetime(ttl: nat): nat { if ttl > 0 then ttl else 60 }

  /** Saving after a miss, under a name that fits, makes it the last saved packet and keeps all else. */
  lemma SaveKeepsInv(c: Cache, h: History, domain: string, qtype: nat, packet: seq<byte>, ttl: nat, now: int, dice: nat)
    requires Inv(c, h) && dice < MAX_CACHE && |packet| <= PACKET_MAX && |domain| <= NAME_MAX
    requires forall j :: 0 <= j < c.count ==> !Matches(c.entries[j], domain, qtype)
    ensures Inv(Save(c, domain, qtype, packet, ttl, now, dice),
      h[KeyOf(domain, qtype) := Saved(packet, now + Lifetime(ttl))])
  {
    hide UpToId, Sent;
    var c' := Save(c, domain, qtype, packet, ttl, now, dice);
    var h' := h[KeyOf(domain, qtype) := Saved(packet, now + Lifetime(ttl))];
    var k := SaveSlot(c, now, dice);
    NewFaithful(c'.entries[k], h', packet);
    forall i | 0 <= i < c'.count && i != k ensures Faithful(c'.entries[i], h') {
      assert Faithful(c.entries[i], h) && !Matches(c.entries[i], domain, qtype);
    }
    forall i | 0 <= i < c'.count && i != k && c'.entries[i].used
      ensures !SameKey(c'.entries[i], c'.entries[k]) && !SameKey(c'.entries[k], c'.entries[i])
    {
      assert !Matches(c.entries[i], domain, qtype);
    }
  }

  lemma NewFaithful(e: Entry, h: History, packet: seq<byte>)
    requires KeyOf(e.domain, e.qtype) in h && h[KeyOf(e.domain, e.qtype)] == Saved(packet, e.expire)
    requires e.len == |packet| <= PACKET_MAX && e.packet[..|packet|] == packet
    ensures Faithful(e, h)
  {
  }

  /**
    A packet stored under the first 127 characters of a name does no harm: it is the one that belongs there, with
    the same expiry, and no other used slot has that name.
   */
  predicate Harmless(c: Cache, h: History, domain: string, qtype: nat, packet: seq<byte>, expire: int, k: nat)
    requires Sized(c)
  {
    var key := KeyOf(Cut(domain), qtype);
    && key in h && UpToId(packet, h[key].packet) && h[key].expire == expire
    && forall j :: 0 <= j < c.count && j != k ==> !Matches(c.entries[j], Cut(domain), qtype)
  }

  /** After a miss, the history is right after a save if and only if the name fits, or is cut and does no harm. */
  lemma SaveRightIff(c: Cache, h: History, domain: string, qtype: nat, packet: seq<byte>, ttl: nat, now: int, dice: nat)
    requires Inv(c, h) && dice < MAX_CACHE && |packet| <= PACKET_MAX
    requires forall j :: 0 <= j < c.count ==> !Matches(c.entries[j], domain, qtype)
    ensures Inv(Save(c, domain, qtype, packet, ttl, now, dice),
      h[KeyOf(domain, qtype) := Saved(packet, now + Lifetime(ttl))])
      <==> |domain| <= 127 || Harmless(c, h, domain, qtype, packet, now + Lifetime(ttl), SaveSlot(c, now, dice))
  {
    if |domain| <= NAME_MAX {
      SaveKeepsInv(c, h, domain, qtype, packet, ttl, now, dice);
    } else {
      CutSaved(c, domain, qtype, packet, ttl, now, dice);
      hide Save, SaveSlot, Cut, Lower;
      if Harmless(c, h, domain, qtype, packet, now + Lifetime(ttl), SaveSlot(c, now, dice)) {
        CutRight(c, h, domain, qtype, packet, ttl, now, dice);
      } else {
        CutWrong(c, h, domain, qtype, packet, ttl, now, dice);
      }
    }
  }

  /** What a save writes, and that a name which is cut gets another key. */
  lemma CutSaved(c: Cache, domain: string, qtype: nat, packet: seq<byte>, ttl: nat, now: int, dice: nat)
    requires Sized(c) && dice < MAX_CACHE && |packet| <= PACKET_MAX
    ensures var c', k := Save(c, domain, qtype, packet, ttl, now, dice), SaveSlot(c, now, dice);
      && k < c'.count <= MAX_CACHE && k <= c.count && c'.count == (if k < c.count then c.count else k + 1)
      && (forall i :: 0 <= i < c'.count && i != k ==> c'.entries[i] == c.entries[i])
      && var e := c'.entries[k];
         e.used && e.domain == Cut(domain) && e.qtype == qtype && Sent(e) == packet && e.len == |packet|
         && e.expire == now + Lifetime(ttl)
    ensures |domain| > NAME_MAX ==> Lower(Cut(domain)) != Lower(domain)
  {
    if |domain| > NAME_MAX { assert |Lower(Cut(domain))| != |Lower(domain)|; }
  }

  lemma CutRight(c: Cache, h: History, domain: string, qtype: nat, packet: seq<byte>, ttl: nat, now: int, dice: nat)
    requires Inv(c, h) && dice < MAX_CACHE && |packet| <= PACKET_MAX && |domain| > NAME_MAX
    requires forall j :: 0 <= j < c.count ==> !Matches(c.entries[j], domain, qtype)
    requires Harmless(c, h, domain, qtype, packet, now + Lifetime(ttl), SaveSlot(c, now, dice))
    ensures Inv(Save(c, domain, qtype, packet, ttl, now, dice),
      h[KeyOf(domain, qtype) := Saved(packet, now + Lifetime(ttl))])
  {
    hide Save, SaveSlot, Cut, Lower, UpToId, Sent;
    CutSaved(c, domain, qtype, packet, ttl, now, dice);
    var c', k := Save(c, domain, qtype, packet, ttl, now, dice), SaveSlot(c, now, dice);
    var h' := h[KeyOf(domain, qtype) := Saved(packet, now + Lifetime(ttl))];
    forall i | 0 <= i < c'.count ensures Faithful(c'.entries[i], h') {
      if i != k { assert Faithful(c.entries[i], h) && !Matches(c.entries[i], domain, qtype); }
    }
    forall i | 0 <= i < c'.count && i != k && c'.entries[i].used
      ensures !SameKey(c'.entries[i], c'.entries[k]) && !SameKey(c'.entries[k], c'.entries[i])
    {
      assert !Matches(c.entries[i], Cut(domain), qtype);
    }
  }

  lemma CutWrong(c: Cache, h: History, domain: string, qtype: nat, packet: seq<byte>, ttl: nat, now: int, dice: nat)
    requires Inv(c, h) && dice < MAX_CACHE && |packet| <= PACKET_MAX && |domain| > NAME_MAX
    requires !Harmless(c, h, domain, qtype, packet, now + Lifetime(ttl), SaveSlot(c, now, dice))
    ensures !Inv(Save(c, domain, qtype, packet, ttl, now, dice),
      h[KeyOf(domain, qtype) := Saved(packet, now + Lifetime(ttl))])
  {
    hide Save, SaveSlot, Cut, Lower, UpToId, Sent;
    CutSaved(c, domain, qtype, packet, ttl, now, dice);
    var c', k := Save(c, domain, qtype, packet, ttl, now, dice), SaveSlot(c, now, dice);
    var h' := h[KeyOf(domain, qtype) := Saved(packet, now + Lifetime(ttl))];
    if Faithful(c'.entries[k], h') {
      var j :| 0 <= j < c.count && j != k && Matches(c.entries[j], Cut(domain), qtype);
      assert c'.entries[j] == c.entries[j];
      assert SameKey(c'.entries[j], c'.entries[k]) && SameKey(c'.entries[k], c'.entries[j]);
    }
  }

  /**
    A name that is cut is never found again, so while something can be reused each save of it takes another slot,
    and two used ones hold one name.
   */
  lemma LongNameRepeats(c: Cache, domain: string, qtype: nat, packet: seq<byte>, ttl: nat, now: int, dice: nat, k: nat)
    requires Sized(c) && dice < MAX_CACHE && |packet| <= PACKET_MAX && |domain| > NAME_MAX && Roomy(c, now)
    requires k < c.count && Matches(c.entries[k], Cut(domain), qtype) && c.entries[k].expire >= now
    ensures !OneSlotEach(Save(c, domain, qtype, packet, ttl, now, dice))
  {
    SaveKeepsLive(c, domain, qtype, packet, ttl, now, dice, k);
    CutSaved(c, domain, qtype, packet, ttl, now, dice);
    hide Save, SaveSlot, Cut, Lower, Sent, Roomy;
    var c', i := Save(c, domain, qtype, packet, ttl, now, dice), SaveSlot(c, now, dice);
    assert SameKey(c'.entries[i], c'.entries[k]) && SameKey(c'.entries[k], c'.entries[i]);
  }

  // ---- answers -------------------------------------------------------------------------------------------

  /** The history after a query, from what its client saw. */
  function Logged(h: History, key: Key, a: Answer, later: int): History {
    if a.FromUpstream? then h[key := Saved(a.packet, later + TTL)] else h
  }

  /** A cached answer is the packet saved last, unexpired, with this request's id. */
  predicate RightAnswer(h: History, key: Key, a: Answer, id: (byte, byte), now: int) {
    a.FromCache? ==>
      && key in h && UpToId(a.packet, h[key].packet) && h[key].expire >= now
      && (|a.packet| >= 2 ==> a.packet[0] == id.0 && a.packet[1] == id.1)
  }

  lemma QueryCorrect(c: Cache, h: History, domain: string, qtype: nat, id: (byte, byte), now: int,
      reply: Option<seq<byte>>, later: int, dice: nat)
    requires Inv(c, h) && dice < MAX_CACHE && (reply.Some? ==> 0 < |reply.value| <= PACKET_MAX) && |domain| <= NAME_MAX
    ensures var (c', a) := Query(c, domain, qtype, id, now, reply, later, dice);
      RightAnswer(h, KeyOf(domain, qtype), a, id, now) && Inv(c', Logged(h, KeyOf(domain, qtype), a, later))
  {
    FindKeepsInv(c, h, domain, qtype, now);
    ScanDoes(c.entries, c.count, 0, domain, qtype, now);
    hide Scan, Save, SaveSlot;
    var (c1, hit) := Find(c, domain, qtype, now);
    assert c1.count == c.count;
    if hit.Some? {
      HitRight(c1, h, hit.value, domain, qtype, id, now);
    } else if reply.Some? {
      SaveKeepsInv(c1, h, domain, qtype, reply.value, TTL, later, dice);
    }
  }

  lemma HitRight(c: Cache, h: History, k: nat, domain: string, qtype: nat, id: (byte, byte), now: int)
    requires Inv(c, h) && k < c.count && Matches(c.entries[k], domain, qtype) && c.entries[k].expire >= now
    ensures var e := c.entries[k].(packet := WithId(c.entries[k].packet, id));
      RightAnswer(h, KeyOf(domain, qtype), FromCache(Sent(e)), id, now) && Inv(c.(entries := c.entries[k := e]), h)
  {
    var e := c.entries[k].(packet := WithId(c.entries[k].packet, id));
    var c' := c.(entries := c.entries[k := e]);
    assert Faithful(c.entries[k], h);
    IdOnly(c.entries[k], h, id);
    hide Faithful, UpToId, Sent, WithId;
    forall i | 0 <= i < c.count ensures Faithful(c'.entries[i], h) { if i != k { assert Faithful(c.entries[i], h); } }
  }

  lemma IdOnly(e: Entry, h: History, id: (byte, byte))
    requires Faithful(e, h) && e.used
    ensures var f := e.(packet := WithId(e.packet, id));
      && Faithful(f, h) && UpToId(Sent(f), h[KeyOf(e.domain, e.qtype)].packet)
      && (e.len >= 2 ==> Sent(f)[0] == id.0 && Sent(f)[1] == id.1)
  {
  }

  // ---- runs -----------------------------------------------------------------------------------------------

  datatype Op =
    | Ask(domain: string, qtype: nat, id: (byte, byte), now: int, reply: Option<seq<byte>>, later: int, dice: nat)
    | Wipe

  predicate OpOk(op: Op) {
    op.Ask? ==>
      && |op.domain| <= NAME_MAX && op.dice < MAX_CACHE
      && (op.reply.Some? ==> 0 < |op.reply.value| <= PACKET_MAX)
  }

  ghost function Step(c: Cache, op: Op): (Cache, Answer)
    requires Sized(c) && OpOk(op)
  {
    match op
    case Ask(domain, qtype, id, now, reply, later, dice) => Query(c, domain, qtype, id, now, reply, later, dice)
    case Wipe => (Clear(c), NoAnswer)
  }

  ghost function Record(h: History, op: Op, a: Answer): History {
    match op
    case Ask(domain, qtype, _, _, _, later, _) => Logged(h, KeyOf(domain, qtype), a, later)
    case Wipe => map[]
  }

  /**
    At every moment of a run each name and type has at most one used slot, and each answer agrees with those
    before it.
   */
  ghost predicate RunRight(c: Cache, h: History, ops: seq<Op>)
    requires forall i :: 0 <= i < |ops| ==> OpOk(ops[i])
    decreases |ops|
  {
    Sized(c) && OneSlotEach(c) && (ops == [] ||
      var (c', a) := Step(c, ops[0]);
      && (ops[0].Ask? ==> RightAnswer(h, KeyOf(ops[0].domain, ops[0].qtype), a, ops[0].id, ops[0].now))
      && RunRight(c', Record(h, ops[0], a), ops[1..]))
  }

  lemma StepInv(c: Cache, h: History, op: Op)
    requires Inv(c, h) && OpOk(op)
    ensures var (c', a) := Step(c, op);
      Inv(c', Record(h, op, a)) && (op.Ask? ==> RightAnswer(h, KeyOf(op.domain, op.qtype), a, op.id, op.now))
  {
    hide Query;
    match op
    case Ask(domain, qtype, id, now, reply, later, dice) =>
      QueryCorrect(c, h, domain, qtype, id, now, reply, later, dice);
    case Wipe =>
  }

  /** Over every run, whatever the clock, the replies, the evictions and the clears. */
  lemma {:induction false} RunCorrect(c: Cache, h: History, ops: seq<Op>)
    requires Inv(c, h) && forall i :: 0 <= i < |ops| ==> OpOk(ops[i])
    ensures RunRight(c, h, ops)
    decreases |ops|
  {
    hide Inv, Step, Record, OpOk, OneSlotEach;
    InvSized(c, h);
    if ops == [] {
    } else {
      StepInv(c, h, ops[0]);
      var (c', a) := Step(c, ops[0]);
      RunCorrect(c', Record(h, ops[0], a), ops[1..]);
    }
  }

  lemma InvSized(c: Cache, h: History)
    requires Inv(c, h)
    ensures Sized(c) && OneSlotEach(c)
  {
  }

  // ---- what is found again ----------------------------------------------------------------------------------

  /** A packet just saved answers, under any writing of its name, until it expires. */
  lemma SavedIsLive(c: Cache, domain: string, qtype: nat, packet: seq<byte>, ttl: nat, now: int, dice: nat,
      name: string, later: int)
    requires Sized(c) && dice < MAX_CACHE && |packet| <= PACKET_MAX && |domain| <= NAME_MAX && Alike(domain, name)
    ensures var c' := Save(c, domain, qtype, packet, ttl, now, dice);
      var k := SaveSlot(c, now, dice);
      && k < c'.count && Sent(c'.entries[k]) == packet
      && (Answers(c'.entries[k], name, qtype, later) <==> later <= now + if ttl > 0 then ttl else 60)
  {
  }

  /** A name asked again, in any writing, is answered from the cache exactly for 120 seconds. */
  lemma AskedAgain(c: Cache, h: History, domain: string, qtype: nat, id: (byte, byte), now: int, reply: seq<byte>,
      later: int, dice: nat, name: string, id2: (byte, byte), now2: int, reply2: Option<seq<byte>>, later2: int,
      dice2: nat)
    requires Inv(c, h) && dice < MAX_CACHE && 0 < |reply| <= PACKET_MAX && |domain| <= NAME_MAX && Alike(domain, name)
    requires Query(c, domain, qtype, id, now, Some(reply), later, dice).1.FromUpstream?
    requires dice2 < MAX_CACHE && (reply2.Some? ==> 0 < |reply2.value| <= PACKET_MAX)
    ensures var c' := Query(c, domain, qtype, id, now, Some(reply), later, dice).0;
      Sized(c') && (Query(c', name, qtype, id2, now2, reply2, later2, dice2).1.FromCache? <==> now2 <= later + 120)
  {
    hide Inv, Alike, Query, RightAnswer, KeyOf, Sized, Answers;
    InvSized(c, h);
    QueryCorrect(c, h, domain, qtype, id, now, Some(reply), later, dice);
    var (c', a) := Query(c, domain, qtype, id, now, Some(reply), later, dice);
    InvSized(c', Logged(h, KeyOf(domain, qtype), a, later));
    AnswerIff(c', name, qtype, id2, now2, reply2, later2, dice2);
    if now2 <= later + 120 { AskedLive(c, domain, qtype, id, now, reply, later, dice, name, now2); }
    if k: nat :| k < c'.count && Answers(c'.entries[k], name, qtype, now2) {
      UntilThen(c', Logged(h, KeyOf(domain, qtype), a, later), k, domain, name, qtype, now2);
    }
  }

  lemma AskedLive(c: Cache, domain: string, qtype: nat, id: (byte, byte), now: int, reply: seq<byte>, later: int,
      dice: nat, name: string, now2: int)
    requires Sized(c) && dice < MAX_CACHE && 0 < |reply| <= PACKET_MAX && |domain| <= NAME_MAX && Alike(domain, name)
    requires Query(c, domain, qtype, id, now, Some(reply), later, dice).1.FromUpstream? && now2 <= later + 120
    ensures var c' := Query(c, domain, qtype, id, now, Some(reply), later, dice).0;
      Sized(c') && exists k: nat :: k < c'.count && Answers(c'.entries[k], name, qtype, now2)
  {
    hide Find, Save, SaveSlot, Answers, Alike, Sent, WithId;
    FindSized(c, domain, qtype, now);
    SavedIsLive(Find(c, domain, qtype, now).0, domain, qtype, reply, TTL, later, dice, name, now2);
  }

  lemma UntilThen(c: Cache, h: History, k: nat, domain: string, name: string, qtype: nat, now: int)
    requires Inv(c, h) && k < c.count && Answers(c.entries[k], name, qtype, now) && Alike(domain, name)
    ensures KeyOf(domain, qtype) in h && now <= h[KeyOf(domain, qtype)].expire
  {
    assert Faithful(c.entries[k], h);
    hide UpToId, Sent;
    SameKeyIff(c.entries[k].domain, c.entries[k].qtype, name, qtype);
    SameKeyIff(domain, qtype, name, qtype);
  }

  /** A packet saved under a name that is cut is not found under it, but answers for the first 127 characters. */
  lemma LongNameAnswersForPrefix(c: Cache, domain: string, qtype: nat, packet: seq<byte>, now: int, dice: nat)
    requires Sized(c) && dice < MAX_CACHE && |packet| <= PACKET_MAX && |domain| > NAME_MAX
    requires forall j :: 0 <= j < c.count ==>
      !Matches(c.entries[j], domain, qtype) && !Matches(c.entries[j], Cut(domain), qtype)
    ensures var c' := Save(c, domain, qtype, packet, TTL, now, dice);
      && Find(c', domain, qtype, now).1.None?
      && Find(c', Cut(domain), qtype, now).1 == Some(SaveSlot(c, now, dice))
      && var found := Find(c', Cut(domain), qtype, now).0;
         Sized(found) && Sent(found.entries[SaveSlot(c, now, dice)]) == packet
  {
    var c', k := Save(c, domain, qtype, packet, TTL, now, dice), SaveSlot(c, now, dice);
    assert |Lower(Cut(domain))| != |Lower(domain)|;
    forall j | 0 <= j < c'.count
      ensures !Matches(c'.entries[j], domain, qtype)
    {
      if j != k { assert c'.entries[j] == c.entries[j]; }
    }
    FindLiveIff(c', domain, qtype, now);
    assert Live(c', k, Cut(domain), qtype, now);
    FindLiveIff(c', Cut(domain), qtype, now);
    ScanDoes(c'.entries, c'.count, 0, Cut(domain), qtype, now);
  }

  /** Such a name, in the cache as the program starts with it. */
  lemma LongNameWitness()
    ensures var c := Cache(seq(MAX_CACHE, _ => BLANK), 0);
      var long, short := seq(128, _ => 'a'), seq(127, _ => 'a');
      var c' := Save(c, long, 1, [7, 7, 7], TTL, 0, 0);
      && Find(c', long, 1, 0).1.None? && Find(c', short, 1, 0).1 == Some(0)
      && Sized(Find(c', short, 1, 0).0) && Sent(Find(c', short, 1, 0).0.entries[0]) == [7, 7, 7]
  {
    var c := Cache(seq(MAX_CACHE, _ => BLANK), 0);
    var long: string := seq(128, _ => 'a');
    var short: string := seq(127, _ => 'a');
    assert Cut(long) == short && Sized(c) && SaveSlot(c, 0, 0) == 0;
    hide Cut, Sized, SaveSlot, Save, Find, Matches, Lower;
    LongNameAnswersForPrefix(c, long, 1, [7, 7, 7], 0, 0);
  }

  /** Saved twice there, it takes two slots. */
  lemma LongNameTwice()
    ensures var c := Cache(seq(MAX_CACHE, _ => BLANK), 0);
      var long := seq(128, _ => 'a');
      var once := Save(c, long, 1, [7, 7, 7], TTL, 0, 0);
      OneSlotEach(once) && Find(once, long, 1, 1).1.None? && !OneSlotEach(Save(once, long, 1, [7, 7, 7], TTL, 1, 0))
  {
    var c := Cache(seq(MAX_CACHE, _ => BLANK), 0);
    var long: string := seq(128, _ => 'a');
    var once := Save(c, long, 1, [7, 7, 7], TTL, 0, 0);
    CutSaved(c, long, 1, [7, 7, 7], TTL, 0, 0);
    assert SaveSlot(c, 0, 0) == 0 && once.count == 1;
    hide Save, SaveSlot, Cut, Lower, Sent;
    FindLiveIff(once, long, 1, 1);
    LongNameRepeats(once, long, 1, [7, 7, 7], TTL, 1, 0, 0);
  }

  /** Something can be reused: a slot never used, an unused one or an expired one. */
  predicate Roomy(c: Cache, now: int)
    requires Sized(c)
  {
    c.count < 256 || exists j :: 0 <= j < c.count && (!c.entries[j].used || c.entries[j].expire < now)
  }

  /** A save drops an unexpired entry exactly when there is none to reuse, and then only the random one. */
  lemma SaveKeepsLive(c: Cache, domain: string, qtype: nat, packet: seq<byte>, ttl: nat, now: int, dice: nat, k: nat)
    requires Sized(c) && dice < MAX_CACHE && |packet| <= PACKET_MAX
    requires k < c.count && c.entries[k].used && c.entries[k].expire >= now
    ensures SaveSlot(c, now, dice) == k <==> !Roomy(c, now) && dice == k
    ensures SaveSlot(c, now, dice) != k ==> Save(c, domain, qtype, packet, ttl, now, dice).entries[k] == c.entries[k]
  {
    SlotReused(c, now, dice);
    hide SaveSlot, Reusable, Cut;
  }

  /** The entry is unused or has expired. */
  predicate Spare(e: Entry, now: int) { !e.used || e.expire < now }

  /** A save takes the first spare slot in range, else the one behind the range, else the random one. */
  lemma SlotTaken(c: Cache, now: int, dice: nat)
    requires Sized(c) && dice < MAX_CACHE
    ensures var k := SaveSlot(c, now, dice);
      if exists j :: 0 <= j < c.count && Spare(c.entries[j], now) then
        k < c.count && Spare(c.entries[k], now) && forall j :: 0 <= j < k ==> !Spare(c.entries[j], now)
      else k == if c.count < 256 then c.count else dice
  {
  }

  /** The slot of a save is one that can be reused, as long as there is one. */
  lemma SlotReused(c: Cache, now: int, dice: nat)
    requires Sized(c) && dice < MAX_CACHE
    ensures var k := SaveSlot(c, now, dice);
      if Roomy(c, now) then k == c.count || (k < c.count && (!c.entries[k].used || c.entries[k].expire < now))
      else k == dice
  {
  }
}
