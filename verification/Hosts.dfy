/** Host lists: `parse_hosts` and `lower_char` of main.c, and the lookup loop of `check_host` in extend.c. */
module Hosts {
  import opened Bytes
  import opened KavlTree
  import opened Kavl
  import opened Mpool

  const DOT: byte := 46

  predicate Separator(c: byte) { c == 32 || c == 10 || c == 13 }

  function LowerChar(c: byte): byte { if 65 <= c <= 90 then c + 32 else c }

  ghost function Lowered(w: bytes): (r: bytes)
    ensures |r| == |w| && forall i :: 0 <= i < |w| ==> r[i] == LowerChar(w[i])
  {
    seq(|w|, i requires 0 <= i < |w| => LowerChar(w[i]))
  }

  /** s[a..b] is a word: no separator inside, and one (or an end of the text) on either side. */
  ghost predicate IsWord(s: bytes, a: int, b: int) {
    && 0 <= a < b <= |s|
    && (forall i :: a <= i < b ==> !Separator(s[i]))
    && (a == 0 || Separator(s[a - 1]))
    && (b == |s| || Separator(s[b]))
  }

  /** The lower-cased words of s. */
  ghost function HostWords(s: bytes): set<bytes> {
    set a, b | 0 <= a < b <= |s| && IsWord(s, a, b) :: Lowered(s[a..b])
  }

  /** The lower-cased words of s that end at position e or later. */
  ghost function WordsAfter(s: bytes, e: int): set<bytes> {
    set a, b | 0 <= a < b <= |s| && IsWord(s, a, b) && e <= b :: Lowered(s[a..b])
  }

  /** The text from `start` to e is the beginning of a word, or empty. */
  ghost predicate Pending(s: bytes, start: int, e: int) {
    && 0 <= start <= e <= |s|
    && (start == 0 || Separator(s[start - 1]))
    && (forall i :: start <= i < e ==> !Separator(s[i]))
  }

  lemma {:induction false} NothingEnds(s: bytes, e: int)
    requires Pending(s, e, e)
    ensures WordsAfter(s, e) == WordsAfter(s, e + 1)
  {
    forall a, b | IsWord(s, a, b) && e <= b ensures e + 1 <= b {
    }
  }

  lemma {:induction false} WordEnds(s: bytes, start: int, e: int)
    requires Pending(s, start, e) && start < e && (e == |s| || Separator(s[e]))
    ensures WordsAfter(s, e) == {Lowered(s[start..e])} + WordsAfter(s, e + 1)
  {
    assert IsWord(s, start, e);
    forall a, b | IsWord(s, a, b) && e <= b ensures e + 1 <= b || a == start {
    }
  }

  /** Lower-casing takes two bytes together exactly if they are the same letter, or the same byte. */
  lemma {:induction false} FoldsCase(a: byte, b: byte)
    ensures LowerChar(a) == LowerChar(b) <==> a == b || (65 <= a <= 90 && b == a + 32) || (65 <= b <= 90 && a == b + 32)
    ensures !(65 <= LowerChar(a) <= 90) && LowerChar(LowerChar(a)) == LowerChar(a)
  {
  }

  /** h is s[a..b] in lower case, and that is a word: what is between blanks and line ends, or the ends of the text. */
  ghost predicate IsLowerWord(s: bytes, a: nat, b: nat, h: bytes) {
    && a < b <= |s| && |h| == b - a
    && (forall i :: a <= i < b ==> s[i] != 32 && s[i] != 10 && s[i] != 13)
    && (a > 0 ==> s[a - 1] == 32 || s[a - 1] == 10 || s[a - 1] == 13)
    && (b < |s| ==> s[b] == 32 || s[b] == 10 || s[b] == 13)
    && forall i :: 0 <= i < |h| ==> h[i] == if 65 <= s[a + i] <= 90 then s[a + i] + 32 else s[a + i]
  }

  lemma {:induction false} WordsExact(s: bytes, h: bytes)
    ensures h in HostWords(s) <==> exists a: nat, b: nat :: IsLowerWord(s, a, b, h)
  {
    if h in HostWords(s) {
      var a: nat, b: nat :| a < b <= |s| && IsWord(s, a, b) && h == Lowered(s[a..b]);
      assert IsLowerWord(s, a, b, h);
    }
    if a: nat, b: nat :| IsLowerWord(s, a, b, h) {
      assert IsWord(s, a, b);
      assert h == Lowered(s[a..b]);
    }
  }

  /** What lower_char does not warn about. */
  predicate HostChar(c: byte) { 45 <= c <= 57 || 65 <= c <= 90 || 97 <= c <= 122 }

  /** lower_char on the byte at e */
  method LowerAt(buffer: array<byte>, e: nat) returns (res: int)
    requires e < buffer.Length
    modifies buffer
    ensures buffer[..] == old(buffer[..])[e := LowerChar(old(buffer[e]))]
    ensures res == if HostChar(old(buffer[e])) then 0 else -1
  {
    var c := buffer[e];
    res := 0;
    if c < 65 {
      if c > 57 || c < 45 {
        res := -1;
      }
    } else if c < 97 {
      if c > 90 {
        res := -1;
      } else {
        buffer[e] := c + 32;
      }
    } else if c > 122 {
      res := -1;
    }
  }

  /** The first e bytes have been lower-cased, separators aside; the rest is as it was. */
  ghost predicate LoweredTo(now: bytes, text: bytes, e: int) {
    && |now| == |text|
    && (forall i :: 0 <= i < |text| && i < e && !Separator(text[i]) ==> now[i] == LowerChar(text[i]))
    && (forall i :: 0 <= i < |text| && (e <= i || Separator(text[i])) ==> now[i] == text[i])
  }

  /** Before position e: the text so far is lower-cased, and all words are found or still to come. */
  ghost predicate ScannedTo(text: bytes, now: bytes, s: int, e: int, found: set<bytes>) {
    && 0 <= e <= |text| + 1 && (e <= |text| ==> Pending(text, s, e))
    && LoweredTo(now, text, e)
    && found + WordsAfter(text, e) == HostWords(text)
  }

  /** ScannedTo, wrapped so that the methods below carry it along by name, as with Pool.Valid. */
  ghost predicate Scanned(text: bytes, now: bytes, s: int, e: int, found: set<bytes>, k: nat := 3) {
    if k == 0 then ScannedTo(text, now, s, e, found) else Scanned(text, now, s, e, found, k - 1)
  }

  lemma {:induction false} ScanOpen(text: bytes, now: bytes, s: int, e: int, found: set<bytes>, k: nat := 3)
    requires Scanned(text, now, s, e, found, k)
    ensures ScannedTo(text, now, s, e, found)
  {
    if k > 0 { ScanOpen(text, now, s, e, found, k - 1); }
  }

  lemma {:induction false} ScanClose(text: bytes, now: bytes, s: int, e: int, found: set<bytes>, k: nat := 3)
    requires ScannedTo(text, now, s, e, found)
    ensures Scanned(text, now, s, e, found, k)
  {
    if k > 0 { ScanClose(text, now, s, e, found, k - 1); }
  }

  lemma {:induction false} ScanStart(text: bytes)
    ensures Scanned(text, text, 0, 0, {})
  {
    assert WordsAfter(text, 0) == HostWords(text);
    ScanClose(text, text, 0, 0, {});
  }

  lemma {:induction false} ScanEnd(text: bytes, now: bytes, s: int, found: set<bytes>)
    requires Scanned(text, now, s, |text| + 1, found)
    ensures found == HostWords(text) && LoweredTo(now, text, |text|)
  {
    ScanOpen(text, now, s, |text| + 1, found);
    assert WordsAfter(text, |text| + 1) == {};
  }

  lemma {:induction false} ScanLower(text: bytes, now: bytes, s: int, e: int, found: set<bytes>)
    requires Scanned(text, now, s, e, found) && 0 <= e < |now| && !Separator(now[e])
    ensures Scanned(text, now[e := LowerChar(now[e])], s, e + 1, found)
  {
    ScanOpen(text, now, s, e, found);
    assert !Separator(text[e]);
    forall a, b | IsWord(text, a, b) && e <= b ensures e + 1 <= b {
    }
    assert WordsAfter(text, e) == WordsAfter(text, e + 1);
    ScanClose(text, now[e := LowerChar(now[e])], s, e + 1, found);
  }

  lemma {:induction false} ScanSkip(text: bytes, now: bytes, e: int, found: set<bytes>)
    requires Scanned(text, now, e, e, found) && 0 <= e <= |now| && (e < |now| ==> Separator(now[e]))
    ensures Scanned(text, now, e + 1, e + 1, found)
  {
    ScanOpen(text, now, e, e, found);
    assert e < |text| ==> Separator(text[e]);
    NothingEnds(text, e);
    ScanClose(text, now, e + 1, e + 1, found);
  }

  lemma {:induction false} TookWord(text: bytes, word: bytes, s: int, e: int, found: set<bytes>)
    requires found + WordsAfter(text, e) == HostWords(text)
    requires Pending(text, s, e) && s < e && (e < |text| ==> Separator(text[e])) && word == Lowered(text[s..e])
    ensures found + {word} + WordsAfter(text, e + 1) == HostWords(text)
  {
    WordEnds(text, s, e);
  }

  lemma {:induction false} LoweredWord(text: bytes, now: bytes, s: int, e: int)
    requires LoweredTo(now, text, e) && Pending(text, s, e)
    ensures now[s..e] == Lowered(text[s..e])
    ensures e < |text| && Separator(now[e]) ==> Separator(text[e]) && LoweredTo(now, text, e + 1)
    ensures e == |text| ==> LoweredTo(now, text, e + 1)
  {
  }

  lemma {:induction false} ScanWord(text: bytes, now: bytes, s: int, e: int, found: set<bytes>)
    requires Scanned(text, now, s, e, found) && 0 <= e <= |now| && s != e && (e < |now| ==> Separator(now[e]))
    ensures 0 <= s < e <= |now| && Scanned(text, now, e + 1, e + 1, found + {now[s..e]})
  {
    ScanOpen(text, now, s, e, found);
    LoweredWord(text, now, s, e);
    TookWord(text, now[s..e], s, e, found);
    ScanClose(text, now, e + 1, e + 1, found + {now[s..e]});
  }

  /** mem_add of the text between two positions; the buffer stays as it is. */
  method AddWord(hdr: Pool, buffer: array<byte>, s: nat, e: nat)
    requires s < e <= buffer.Length && hdr.Valid() && |hdr.elems| < UINT_MAX
    modifies hdr, hdr.hdr, Nodes(hdr.hdr.tree)
    ensures hdr.Valid() && |hdr.elems| <= |old(hdr.elems)| + 1
    ensures hdr.elems.Keys == old(hdr.elems.Keys) + {old(buffer[..])[s..e]}
    ensures forall n <- Nodes(hdr.hdr.tree) :: n in old(Nodes(hdr.hdr.tree)) || fresh(n)
    ensures buffer[..] == old(buffer[..])
  {
    ghost var own: set<object> := Nodes(hdr.hdr.tree);
    assert buffer !in own && buffer[s..e] == buffer[..][s..e];
    var v := hdr.Add(buffer[s..e]);
  }

  /** The end of a word: it goes into the pool. */
  method TakeWord(hdr: Pool, buffer: array<byte>, s: int, e: nat, ghost text: bytes, ghost now: bytes,
                  ghost words: set<bytes>)
    requires e <= buffer.Length < UINT_MAX && s != e && hdr.Valid() && |hdr.elems| <= e
    requires now == buffer[..] && words == hdr.elems.Keys && Scanned(text, now, s, e, words)
    requires e < buffer.Length ==> Separator(now[e])
    modifies hdr, hdr.hdr, Nodes(hdr.hdr.tree)
    ensures hdr.Valid() && |hdr.elems| <= e + 1
    ensures buffer[..] == now && Scanned(text, now, e + 1, e + 1, hdr.elems.Keys)
    ensures forall n <- Nodes(hdr.hdr.tree) :: n in old(Nodes(hdr.hdr.tree)) || fresh(n)
  {
    ScanWord(text, now, s, e, words);
    ghost var words' := words + {now[s..e]};
    AddWord(hdr, buffer, s, e);
    assert hdr.elems.Keys == words';
  }

  /** A separator or the end of the text: the word before it, if any, is taken. */
  method AtSeparator(hdr: Pool, buffer: array<byte>, s: int, e: nat, ghost text: bytes, ghost now: bytes,
                     ghost words: set<bytes>) returns (s': int)
    requires e <= buffer.Length < UINT_MAX && hdr.Valid() && |hdr.elems| <= e
    requires now == buffer[..] && words == hdr.elems.Keys && Scanned(text, now, s, e, words)
    requires e < buffer.Length ==> Separator(now[e])
    modifies hdr, hdr.hdr, Nodes(hdr.hdr.tree)
    ensures hdr.Valid() && |hdr.elems| <= e + 1
    ensures buffer[..] == now && Scanned(text, now, s', e + 1, hdr.elems.Keys)
    ensures forall n <- Nodes(hdr.hdr.tree) :: n in old(Nodes(hdr.hdr.tree)) || fresh(n)
  {
    if s == e {
      ScanSkip(text, now, e, words);
      return s + 1;
    }
    TakeWord(hdr, buffer, s, e, text, now, words);
    s' := e + 1;
  }

  /** Lower-casing in the buffer leaves the pool alone. */
  method LowerBeside(hdr: Pool, buffer: array<byte>, s: int, e: nat, ghost text: bytes, ghost now: bytes,
                     ghost words: set<bytes>)
    requires e < buffer.Length && hdr.Valid()
    requires now == buffer[..] && words == hdr.elems.Keys && Scanned(text, now, s, e, words)
    requires !Separator(now[e])
    modifies buffer
    ensures hdr.Valid() && Scanned(text, buffer[..], s, e + 1, words)
  {
    ScanLower(text, now, s, e, words);
    ghost var own: set<object> := Nodes(hdr.hdr.tree);
    assert buffer !in own && allocated(Nodes(hdr.hdr.tree));
    var res := LowerAt(buffer, e);
  }

  /** One round of the loop of parse_hosts. */
  method ScanStep(hdr: Pool, buffer: array<byte>, s: int, e: nat, ghost text: bytes, ghost now: bytes,
                  ghost words: set<bytes>) returns (s': int)
    requires e <= buffer.Length < UINT_MAX && hdr.Valid() && |hdr.elems| <= e
    requires now == buffer[..] && words == hdr.elems.Keys && Scanned(text, now, s, e, words)
    modifies buffer, hdr, hdr.hdr, Nodes(hdr.hdr.tree)
    ensures hdr.Valid() && |hdr.elems| <= e + 1
    ensures Scanned(text, buffer[..], s', e + 1, hdr.elems.Keys)
    ensures forall n <- Nodes(hdr.hdr.tree) :: n in old(Nodes(hdr.hdr.tree)) || fresh(n)
  {
    if e != buffer.Length && buffer[e] != 32 && buffer[e] != 10 && buffer[e] != 13 {
      LowerBeside(hdr, buffer, s, e, text, now, words);
      return s;
    }
    s' := AtSeparator(hdr, buffer, s, e, text, now, words);
  }

  /** parse_hosts: lower-cases the text in place and collects its words. */
  method ParseHosts(buffer: array<byte>) returns (hdr: Pool)
    requires buffer.Length < UINT_MAX
    modifies buffer
    ensures fresh(hdr) && fresh(hdr.hdr) && fresh(Nodes(hdr.hdr.tree)) && hdr.Valid()
    ensures hdr.elems.Keys == HostWords(old(buffer[..]))
    ensures LoweredTo(buffer[..], old(buffer[..]), buffer.Length)
  {
    hdr := new Pool();
    ghost var text := buffer[..];
    ScanStart(text);
    assert hdr.elems.Keys == {};
    var e, s := 0, 0;
    while e <= buffer.Length
      invariant 0 <= e <= buffer.Length + 1
      invariant hdr.Valid() && |hdr.elems| <= e
      invariant Scanned(text, buffer[..], s, e, hdr.elems.Keys)
      invariant fresh(hdr) && fresh(hdr.hdr) && forall n <- Nodes(hdr.hdr.tree) :: fresh(n)
    {
      s := ScanStep(hdr, buffer, s, e, text, buffer[..], hdr.elems.Keys);
      e := e + 1;
    }
    ScanEnd(text, buffer[..], s, hdr.elems.Keys);
  }

  /** memchr: the first position from i on that holds c, or none. */
  method FindByte(s: bytes, i: nat, c: byte) returns (found: bool, j: nat)
    requires i <= |s|
    ensures found ==> i <= j < |s| && s[j] == c
    ensures forall k :: i <= k < (if found then j else |s|) ==> s[k] != c
  {
    j := i;
    while j < |s|
      invariant i <= j <= |s|
      invariant forall k :: i <= k < j ==> s[k] != c
    {
      if s[j] == c {
        return true, j;
      }
      j := j + 1;
    }
    found := false;
  }

  /** host itself, or a non-empty part of it that starts right after a dot. */
  ghost predicate DomainSuffix(host: bytes, i: int) {
    0 <= i < |host| && (i == 0 || host[i - 1] == 46)
  }

  lemma {:induction false} NoSuffixBetween(host: bytes, i: nat, j: nat)
    requires i <= j <= |host| && forall k :: i <= k < j ==> host[k] != DOT
    ensures forall k :: i < k <= j ==> !DomainSuffix(host, k)
  {
  }

  /** check_host, from the host name on that the packet parsers have found */
  method CheckHost(hosts: Pool, host: bytes) returns (res: bool)
    requires hosts.Valid()
    ensures res <==> exists i :: DomainSuffix(host, i) && host[i..] in hosts.elems
  {
    if |host| <= 0 {
      return false;
    }
    var i := 0;
    while i < |host|
      invariant 0 <= i <= |host| && hosts.Valid()
      invariant i < |host| ==> DomainSuffix(host, i)
      invariant forall k :: DomainSuffix(host, k) && k < i ==> host[k..] !in hosts.elems
    {
      assert allocated(Nodes(hosts.hdr.tree));
      var e := hosts.Get(host[i..]);
      if e != null {
        return true;
      }
      var found, j := FindByte(host, i, DOT);
      if !found {
        NoSuffixBetween(host, i, |host|);
        return false;
      }
      NoSuffixBetween(host, i, j);
      i := j;
      i := i + 1;
    }
    return false;
  }

  /** Loading a list and asking for a host agree on the words of the list. */
  method LoadAndCheck(buffer: array<byte>, host: bytes) returns (res: bool)
    requires buffer.Length < UINT_MAX
    modifies buffer
    ensures res <==> exists i :: DomainSuffix(host, i) && host[i..] in HostWords(old(buffer[..]))
  {
    var hdr := ParseHosts(buffer);
    res := CheckHost(hdr, host);
  }
}
