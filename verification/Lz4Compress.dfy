/** The two greedy hash-table compressors and `LZ4_compress`. Line numbers are those of memapass/lz4.c. */
module Lz4Compress {
  import opened Bytes
  import opened Lz4Format
  import opened Lz4Word
  import opened Lz4Copy
  import opened Lz4Search
  import opened Lz4Limit

  const STEPSIZE := 8

  /** Every entry is a position before `ip`. */
  ghost predicate Behind(table: array<nat>, ip: nat)
    reads table
  {
    forall h :: 0 <= h < table.Length ==> table[h] < ip
  }

  // ---------- match search ----------

  /** How many of the eight bytes at `p` and at `q` are equal before the first difference. */
  function EqualBytes(s: seq<byte>, p: nat, q: nat): nat
    requires p + 8 <= |s| && q + 8 <= |s|
  {
    var diff := WordAt(s, p).Value() ^ WordAt(s, q).Value();
    if diff == 0 then 8 else NbCommonBytes(diff)
  }

  lemma EqualBytesIsExact(s: seq<byte>, p: nat, q: nat)
    requires p <= q && q + 8 <= |s|
    ensures var n := EqualBytes(s, p, q); n <= 8 && Repeats(s, q, q + n, q - p) && (n < 8 ==> s[q + n] != s[p + n])
  {
    hide NbCommonBytes;
    hide WordAt;
    hide Word.Value;
    hide Word.Get;
    var a, b := WordAt(s, p), WordAt(s, q);
    var n := EqualBytes(s, p, q);
    CommonBytesOfWords(a, b);
    forall k | q <= k < q + 8
      ensures a.Get(k - q) == b.Get(k - q) <==> s[k - (q - p)] == s[k]
    {
      WordsAtEqual(s, p, q, k - q);
    }
  }

  /** Lines 437-447: eight bytes at a time, then four, two and one. */
  method CountMatch(s: seq<byte>, start: nat, distance: nat, matchlimit: nat) returns (ip: nat)
    requires 1 <= distance <= start <= matchlimit <= |s|
    ensures start <= ip <= matchlimit
    ensures Repeats(s, start, ip, distance)
    ensures ip == matchlimit || s[ip] != s[ip - distance]
  {
    hide EqualBytes;
    ip := start;
    while ip + (STEPSIZE - 1) < matchlimit
      invariant start <= ip <= matchlimit
      invariant Repeats(s, start, ip, distance)
    {
      var n := EqualBytes(s, ip - distance, ip);
      EqualBytesIsExact(s, ip - distance, ip);
      ip := ip + n;
      if n < STEPSIZE { return; }
    }
    ip := CountTail(s, ip, distance, matchlimit);
  }

  /** Fewer than eight bytes are left to compare. */
  method CountTail(s: seq<byte>, from: nat, distance: nat, matchlimit: nat) returns (ip: nat)
    requires 1 <= distance <= from <= matchlimit <= |s| && matchlimit < from + STEPSIZE
    ensures from <= ip <= matchlimit
    ensures Repeats(s, from, ip, distance)
    ensures ip == matchlimit || s[ip] != s[ip - distance]
  {
    hide A32;
    hide A16;
    ip := from;
    if ip + 3 < matchlimit {
      A32Equal(s, ip - distance, ip);
      if A32(s, ip - distance) == A32(s, ip) { ip := ip + 4; }
    }
    ip := CountShort(s, ip, distance, matchlimit);
  }

  method CountShort(s: seq<byte>, from: nat, distance: nat, matchlimit: nat) returns (ip: nat)
    requires 1 <= distance <= from <= matchlimit <= |s|
    requires matchlimit < from + 4 || !Repeats(s, from, from + 4, distance)
    ensures from <= ip <= matchlimit
    ensures Repeats(s, from, ip, distance)
    ensures ip == matchlimit || s[ip] != s[ip - distance]
  {
    hide A16;
    ip := from;
    if ip + 1 < matchlimit {
      A16Equal(s, ip - distance, ip);
      if A16(s, ip - distance) == A16(s, ip) { ip := ip + 2; }
    }
    if ip < matchlimit && s[ip - distance] == s[ip] { ip := ip + 1; }
  }

  /** Lines 394-396 and 460-463: the entry for the bytes at `ip` is read, replaced and tried. */
  method Try(w: Width, s: seq<byte>, table: array<nat>, h: nat, ip: nat) returns (hit: bool, ref: nat)
    requires w.Accepts(|s|) && ip < |s| - MFLIMIT + 1
    requires table.Length == w.TableSize() && h < table.Length && table[h] < ip
    modifies table
    ensures ref == old(table[h]) && table[..] == old(table[..])[h := ip]
    ensures hit <==> Hits(s, ref, ip)
  {
    hide A32;
    ref := table[h];
    table[h] := w.Truncate(ip);
    A32Equal(s, ref, ip);
    hit := !((w.U32? && ref < ip - MAX_DISTANCE) || A32(s, ref) != A32(s, ip));
  }

  /** Lines 384-396: probes with growing steps, up to the first hit; `n` is the number of probes that missed. */
  method FindMatch(w: Width, s: seq<byte>, table: array<nat>, first: nat, firstH: nat)
    returns (found: bool, ip: nat, ref: nat, ghost n: nat)
    requires w.Accepts(|s|) && |s| >= MINLENGTH
    requires table.Length == w.TableSize()
    requires 1 <= first <= |s| - MFLIMIT + 1 && firstH == w.Hash(s, first)
    requires Behind(table, first)
    modifies table
    ensures Missed(w, s, old(table[..]), first, n)
    ensures found ==> first <= ip == Probe(first, n) < |s| - MFLIMIT && Hits(s, ref, ip)
    ensures found ==> Recorded(w, s, old(table[..]), first, n + 1, table[..]) && Behind(table, ip + 1)
    ensures found ==> ref == EntryAt(w, s, old(table[..]), first, n, w.Hash(s, ip))
    ensures found <==> Probe(first, n + 1) <= |s| - MFLIMIT
  {
    hide Width.Hash;
    hide EntryAt;
    hide Hits;
    hide Recorded;
    hide Missed;
    var attempts: nat := SKIP_UNIT + 3;
    var forwardIp: nat, forwardH: nat := first, firstH;
    ip, ref, n := first, 0, 0;
    ghost var t0 := table[..];
    RecordedFirst(w, s, t0, first);
    MissedNone(w, s, t0, first);
    while true
      invariant first <= forwardIp == Probe(first, n) && forwardIp + 4 <= |s|
      invariant attempts == SKIP_UNIT + 3 + n && forwardH == w.Hash(s, forwardIp)
      invariant Behind(table, forwardIp)
      invariant Recorded(w, s, t0, first, n, table[..])
      invariant Missed(w, s, t0, first, n)
      decreases |s| - forwardIp
    {
      var h := forwardH;
      var step := attempts / SKIP_UNIT;
      attempts := attempts + 1;
      ip := forwardIp;
      forwardIp := ip + step;
      if forwardIp > |s| - MFLIMIT { return false, ip, 0, n; }
      forwardH := w.Hash(s, forwardIp);
      RecordProbe(w, s, t0, first, n, table[..]);
      var hit;
      hit, ref := Try(w, s, table, h, ip);
      if hit { return true, ip, ref, n; }
      MissedOne(w, s, t0, first, n);
      n := n + 1;
    }
  }

  /** Line 399: extends a match backwards over the pending literals. */
  method CatchUp(s: seq<byte>, anchor: nat, ip0: nat, ref0: nat) returns (ip: nat, ref: nat)
    requires anchor <= ip0 && ref0 < ip0 < |s|
    ensures anchor <= ip <= ip0 && ref <= ref0 && ip - ref == ip0 - ref0
    ensures Repeats(s, ip, ip0, ip0 - ref0)
    ensures ip == anchor || ref == 0 || s[ip - 1] != s[ref - 1]
  {
    ip, ref := ip0, ref0;
    while ip > anchor && ref > 0 && s[ip - 1] == s[ref - 1]
      invariant anchor <= ip <= ip0 && ref <= ref0 && ip - ref == ip0 - ref0
      invariant Repeats(s, ip, ip0, ip0 - ref0)
    {
      ip, ref := ip - 1, ref - 1;
    }
  }

  // ---------- output ----------

  lemma Run255Unfold(n: nat)
    ensures Run255(n) == if n < 255 then [n] else [255] + Run255(n - 255)
  {}

  /** Line 423: the run of 255s of a literal length. */
  method PutRun(dest: array<byte>, op: nat, n: nat) returns (end: nat)
    requires op + n / 255 + 1 <= dest.Length
    modifies dest
    ensures Appended(dest, op, end, Run255(n))
  {
    hide Run255;
    var len := n;
    end := op;
    ghost var before := dest[..op];
    while len > 254
      invariant 0 <= len && op <= end && end + len / 255 + 1 <= dest.Length
      invariant dest[..end] + Run255(len) == before + Run255(n)
    {
      Run255Unfold(len);
      Associates(dest[..end], [255], Run255(len - 255));
      dest[end] := 255;
      assert dest[..end + 1] == dest[..end] + [255];
      end, len := end + 1, len - 255;
    }
    Run255Unfold(len);
    dest[end] := len;
    end := end + 1;
    assert dest[..end] == dest[..end - 1] + [len];
  }

  lemma Run255Pair(n: nat)
    requires n > 509
    ensures Run255(n) == [255, 255] + Run255(n - 510)
  {
    assert Run255(n - 255) == [255] + Run255(n - 510);
  }

  /** Line 451: the run of 255s of a match length, written two at a time. */
  method PutRunPairs(dest: array<byte>, op: nat, n: nat) returns (end: nat)
    requires op + n / 255 + 1 <= dest.Length
    modifies dest
    ensures Appended(dest, op, end, Run255(n))
  {
    hide Run255;
    var len := n;
    end := op;
    ghost var before := dest[..op];
    while len > 509
      invariant 0 <= len && op <= end && end + len / 255 + 1 <= dest.Length
      invariant dest[..end] + Run255(len) == before + Run255(n)
    {
      dest[end], dest[end + 1] := 255, 255;
      assert dest[..end + 2] == dest[..end] + [255, 255];
      Run255Pair(len);
      end, len := end + 2, len - 510;
    }
    end := PutRun(dest, end, len);
  }

  lemma Associates(a: seq<byte>, b: seq<byte>, c: seq<byte>)
    ensures a + b + c == a + (b + c) && a + b + [] == a + b
  {}

  /** Lines 403 and 423-424: a token holding the literal length, and the rest of that length. */
  method PutToken(dest: array<byte>, op: nat, length: nat) returns (end: nat)
    requires op + 1 + |LengthTail(length)| <= dest.Length
    modifies dest
    ensures Appended(dest, op, end, [16 * Nibble(length)] + LengthTail(length))
  {
    hide Run255;
    ghost var before := dest[..op];
    end := op + 1;
    if length >= 15 {
      dest[op] := 15 * 16;
      assert dest[..end] == before + [15 * 16];
      end := PutRun(dest, end, length - 15);
      Associates(before, [15 * 16], Run255(length - 15));
    } else {
      dest[op] := length * 16;
      assert dest[..end] == before + [length * 16];
      Associates(before, [length * 16], []);
    }
  }

  /** Line 432: the offset, low byte first. */
  method PutOffset(dest: array<byte>, op: nat, offset: nat) returns (end: nat)
    requires op + 2 <= dest.Length
    modifies dest
    ensures Appended(dest, op, end, LittleEndian(offset, 2))
  {
    dest[op], dest[op + 1] := offset % 256, offset / 256 % 256;
    assert LittleEndian(offset, 2) == [offset % 256] + LittleEndian(offset / 256, 1);
    assert LittleEndian(offset / 256, 1) == [offset / 256 % 256];
    end := op + 2;
  }

  /** Lines 450-452: the match length, added to the token already written and spilled behind the offset. */
  method PutMatchLength(dest: array<byte>, token: nat, op: nat, len: nat) returns (end: nat)
    requires token < op && op + |LengthTail(len)| <= dest.Length
    requires dest[token] + Nibble(len) < 256
    modifies dest
    ensures op <= end <= dest.Length
    ensures dest[..end] == old(dest[..op])[token := old(dest[token]) + Nibble(len)] + LengthTail(len)
  {
    if len >= 15 {
      dest[token] := dest[token] + 15;
      assert dest[..op] == old(dest[..op])[token := old(dest[token]) + 15];
      end := PutRunPairs(dest, op, len - 15);
    } else {
      dest[token] := dest[token] + len;
      end := op;
    }
  }

  /** Division by 255 as C does it, towards zero. */
  function QuotientBy255(n: int): int {
    if n >= 0 then n / 255 else -(-n / 255)
  }

  /** What the limit check of either compressor sets aside for the rest of the last length. */
  function LastTail(w: Width, lastRun: nat): int {
    if w.U32? then QuotientBy255(lastRun - 15) else lastRun / 256
  }

  /** The limit check sets aside enough for the last length. That of the 16-bit compressor divides by 256 where the
      length takes a byte for every 255. */
  predicate SetsAsideEnough(w: Width, lastRun: nat) {
    w.U32? || lastRun < 15 || (lastRun - 15) / 255 <= lastRun / 256
  }

  /** The check of line 474, or 638, lets the last literals through. */
  predicate Passes(w: Width, op: nat, lastRun: nat, limit: nat) {
    op + lastRun + 1 + LastTail(w, lastRun) < limit
  }

  /** What is let through keeps within the limit, whatever the limit, if and only if the check sets aside enough; if it
      does not, the limit is exceeded by one byte at most. */
  lemma LimitIsKept(w: Width, op: nat, lastRun: nat)
    requires w.U16? ==> lastRun < LIMIT_64K
    ensures var needed := op + 1 + |LengthTail(lastRun)| + lastRun;
            && ((forall limit: nat :: Passes(w, op, lastRun, limit) ==> needed <= limit) <==> SetsAsideEnough(w, lastRun))
            && forall limit: nat :: Passes(w, op, lastRun, limit) ==> needed <= limit + 1
  {
    TailLength(lastRun);
    hide LengthTail;
    var limit: nat := op + lastRun + 1 + LastTail(w, lastRun) + 1;
    assert Passes(w, op, lastRun, limit);
  }

  /** Inputs below 4095 bytes are safe; 65295 last literals are not. */
  lemma WhereTheCheckIsShort(lastRun: nat)
    ensures lastRun < 4095 ==> SetsAsideEnough(U16, lastRun)
    ensures SetsAsideEnough(U32, lastRun)
    ensures !SetsAsideEnough(U16, 4095) && !SetsAsideEnough(U16, 65295)
  {}

  /** What line 404 lets through has room for its token, its length and literals, an offset and six bytes more, whatever
      the limit, if and only if the check sets aside enough for the length. */
  lemma BelowIsRoom(op: nat, length: nat)
    ensures (forall limit: nat :: Below(op, length, limit) ==> op + 1 + |LengthTail(length)| + length + 2 + 1 + LASTLITERALS <= limit)
            <==> SetsAsideEnough(U16, length)
  {
    TailLength(length);
    hide LengthTail;
    var limit: nat := op + 1 + length + (2 + 1 + LASTLITERALS) + length / 256 + 1;
    assert Below(op, length, limit);
  }

  /** Lines 472-479: the last literals, unless the limit check refuses them. */
  method PutLast(w: Width, source: seq<byte>, anchor: nat, dest: array<byte>, op: nat, maxOutputSize: nat)
    returns (r: int)
    requires anchor <= |source| && op + |HeadBytes(source[anchor..], 0)| <= dest.Length
    modifies dest
    ensures r == 0 <==> !Passes(w, op, |source| - anchor, maxOutputSize)
    ensures op + |HeadBytes(source[anchor..], 0)| < maxOutputSize ==> r > 0
    ensures r != 0 ==> r > 0 && Appended(dest, op, r, HeadBytes(source[anchor..], 0))
    ensures r != 0 && (w.U16? ==> |source| - anchor < LIMIT_64K) ==>
              r <= maxOutputSize + (if SetsAsideEnough(w, |source| - anchor) then 0 else 1)
  {
    hide LengthTail;
    hide SetsAsideEnough;
    var lastRun := |source| - anchor;
    TailLength(lastRun);
    if op + lastRun + 1 + LastTail(w, lastRun) >= maxOutputSize { return 0; }
    if w.U16? ==> lastRun < LIMIT_64K { LimitIsKept(w, op, lastRun); }
    ghost var before, head := dest[..op], [16 * Nibble(lastRun)] + LengthTail(lastRun);
    var end := PutToken(dest, op, lastRun);
    r := CopyLiterals(source, anchor, dest, end, lastRun);
    assert source[anchor..anchor + lastRun] == source[anchor..];
    Associates(before, head, source[anchor..]);
  }

  // ---------- the compressors ----------

  /** Lines 402-428 and 463: a token and its literals; a match that follows another at once has none to copy. */
  method PutHead(source: seq<byte>, anchor: nat, start: nat, chained: bool, dest: array<byte>, op: nat)
    returns (end: nat)
    requires anchor <= start && start + COPYLENGTH <= |source| && (chained ==> anchor == start)
    requires op + 1 + |LengthTail(start - anchor)| + (start - anchor) + COPYLENGTH <= dest.Length
    modifies dest
    ensures Appended(dest, op, end, HeadBytes(source[anchor..start], 0))
  {
    hide LengthTail;
    if chained {
      dest[op] := 0;
      end := op + 1;
      TailLength(0);
    } else {
      end := PutToken(dest, op, start - anchor);
      end := WildCopy(source, anchor, dest, end, start - anchor, dest.Length);
    }
  }

  /** Adding the match length to the token afterwards gives the token of the whole sequence. */
  lemma TokenUpdate(before: seq<byte>, s: Sequence)
    ensures var token := 16 * Nibble(|s.literals|);
            && (before + HeadBytes(s.literals, 0))[|before|] == token
            && (before + HeadBytes(s.literals, 0) + LittleEndian(s.offset, 2))[|before| := token + Nibble(s.extra)]
               + LengthTail(s.extra)
               == before + SequenceBytes(s)
  {
    hide LengthTail;
    hide LittleEndian;
  }

  lemma Room(source: seq<byte>, anchor: nat, start: nat, end: nat, op: nat, s: Sequence)
    requires anchor <= start <= |source| - MFLIMIT && start + MINMATCH <= end <= |source| - LASTLITERALS
    requires 255 * op <= 256 * anchor
    requires |s.literals| == start - anchor && s.extra == end - start - MINMATCH
    ensures op + 1 + |LengthTail(start - anchor)| + (start - anchor) + COPYLENGTH <= CompressBound(|source|)
    ensures op + |SequenceBytes(s)| <= CompressBound(|source|)
    ensures 255 * (op + |SequenceBytes(s)|) <= 256 * end
  {
    TailLength(start - anchor);
    SequenceSize(s);
    hide SequenceBytes;
  }

  /** Lines 402-452 of one sequence: head, offset, count and match length. */
  method PutSequence(source: seq<byte>, anchor: nat, start: nat, offset: nat, chained: bool, dest: array<byte>, op: nat)
    returns (newOp: nat, end: nat, ghost s: Sequence)
    requires anchor <= start <= |source| - MFLIMIT && (chained ==> anchor == start)
    requires 1 <= offset <= start && Repeats(source, start, start + MINMATCH, offset)
    requires 255 * op <= 256 * anchor && CompressBound(|source|) <= dest.Length
    modifies dest
    ensures start + MINMATCH <= end <= |source| - LASTLITERALS
    ensures s == Sequence(source[anchor..start], offset, end - start - MINMATCH)
    ensures Repeats(source, start, end, offset)
    ensures end == |source| - LASTLITERALS || source[end] != source[end - offset]
    ensures Appended(dest, op, newOp, SequenceBytes(s))
  {
    hide LengthTail;
    hide SequenceBytes;
    hide CompressBound;
    Room(source, anchor, start, start + MINMATCH, op, Sequence(source[anchor..start], offset, 0));
    newOp := PutHead(source, anchor, start, chained, dest, op);
    newOp := PutOffset(dest, newOp, offset);
    end := CountMatch(source, start + MINMATCH, offset, |source| - LASTLITERALS);
    s := Sequence(source[anchor..start], offset, end - start - MINMATCH);
    TokenUpdate(old(dest[..op]), s);
    Room(source, anchor, start, end, op, s);
    newOp := PutMatchLength(dest, op, newOp, end - start - MINMATCH);
  }

  /** Lines 457-463: the two positions before the cursor go into the table, and the cursor's old entry is tried. */
  method TestNext(w: Width, source: seq<byte>, table: array<nat>, ip: nat) returns (hit: bool, ref: nat)
    requires w.Accepts(|source|) && 2 <= ip <= |source| - MFLIMIT
    requires table.Length == w.TableSize() && Behind(table, ip)
    modifies table
    ensures Behind(table, ip + 1)
    ensures var stored := old(table[..])[w.Hash(source, ip - 2) := ip - 2];
            ref == stored[w.Hash(source, ip)] && table[..] == stored[w.Hash(source, ip) := ip]
    ensures ref < ip && (hit <==> Hits(source, ref, ip))
  {
    hide Width.Hash;
    table[w.Hash(source, ip - 2)] := w.Truncate(ip - 2);
    hit, ref := Try(w, source, table, w.Hash(source, ip), ip);
  }

  /** `bytes` is a whole block for `source` whose sequences are `ss`. */
  ghost predicate Encodes(source: seq<byte>, ss: seq<Sequence>, bytes: seq<byte>) {
    && Covers(source, 0, ss)
    && End(0, ss) <= |source|
    && bytes == BlockBytes(ss, source[End(0, ss)..])
  }

  /** What the main loop keeps: `dest[..op]` encodes `source[..anchor]` as `ss`. */
  ghost predicate Progress(source: seq<byte>, anchor: nat, ss: seq<Sequence>, written: seq<byte>) {
    && Covers(source, 0, ss)
    && End(0, ss) == anchor <= |source|
    && written == SequencesBytes(ss)
  }

  lemma ProgressStart(source: seq<byte>)
    ensures Progress(source, 0, [], [])
  {}

  lemma ProgressStep(source: seq<byte>, anchor: nat, ss: seq<Sequence>, written: seq<byte>, s: Sequence)
    requires Progress(source, anchor, ss, written) && IsStep(source, anchor, s)
    ensures Progress(source, anchor + s.Length(), ss + [s], written + SequenceBytes(s))
  {
    CoversAppend(source, 0, ss, s);
    SequencesBytesAppend(ss, s);
  }

  lemma ProgressSize(source: seq<byte>, anchor: nat, ss: seq<Sequence>, written: seq<byte>)
    requires Progress(source, anchor, ss, written)
    ensures 255 * |written| <= 256 * anchor
  {
    EncodedSize(0, ss);
  }

  /** A match at `start` that goes on past the four bytes compared at `probe`, caught up as far as it goes. */
  ghost predicate Candidate(source: seq<byte>, anchor: nat, start: nat, ref: nat, probe: nat) {
    && anchor <= start <= probe <= |source| - MFLIMIT
    && ref < start && start - ref <= MAX_DISTANCE
    && Repeats(source, start, probe + MINMATCH, start - ref)
    && (start == anchor || ref == 0 || source[start - 1] != source[ref - 1])
  }

  /** Lines 384-404: the next match and its pending literals; `full` when they would pass the output limit. */
  method Locate(w: Width, source: seq<byte>, table: array<nat>, anchor: nat, first: nat, firstH: nat, op: nat,
                maxOutputSize: nat)
    returns (found: bool, full: bool, start: nat, ref: nat, ghost probe: nat)
    requires w.Accepts(|source|) && |source| >= MINLENGTH
    requires table.Length == w.TableSize()
    requires first == anchor + 1 <= |source| - MFLIMIT + 1 && firstH == w.Hash(source, first)
    requires Behind(table, first)
    requires 255 * op <= 256 * anchor
    modifies table
    ensures found ==> Candidate(source, anchor, start, ref, probe) && Behind(table, probe + 1)
    ensures if found then Found(w, source, old(table[..]), anchor, start, start - ref, table[..])
            else Exhausted(w, source, old(table[..]), anchor)
    ensures found ==> (full <==> op + 1 + (start - anchor) + 8 + (start - anchor) / 256 >= maxOutputSize)
    ensures full ==> maxOutputSize < CompressBound(|source|)
    ensures found ==> if full then Overflows(w, source, old(table[..]), anchor, op, maxOutputSize)
                      else Below(op, start - anchor, maxOutputSize)
  {
    hide Recorded;
    hide Missed;
    hide EntryAt;
    hide Width.Hash;
    hide Probe;
    full, probe := false, 0;
    ghost var misses;
    found, start, ref, misses := FindMatch(w, source, table, first, firstH);
    assert !found ==> MissedToEnd(w, source, old(table[..]), anchor, misses);
    if found {
      probe := start;
      start, ref := CatchUp(source, anchor, start, ref);
      assert FoundBy(w, source, old(table[..]), anchor, misses, start, start - ref, table[..]);
      var length := start - anchor;
      full := op + 1 + length + (2 + 1 + LASTLITERALS) + length / 256 >= maxOutputSize;
      if full {
        assert Found(w, source, old(table[..]), anchor, start, start - ref, table[..]);
        assert OverflowsAt(w, source, old(table[..]), anchor, op, start, start - ref, table[..], maxOutputSize);
      }
    }
  }

  /** Lines 402-454: writes the sequence of a candidate. The cursor ends beyond the four bytes probed. */
  method Advance(source: seq<byte>, anchor: nat, start: nat, ref: nat, ghost probe: nat, chained: bool,
                 dest: array<byte>, op: nat, ghost before: seq<Sequence>)
    returns (newOp: nat, ip: nat, ghost s: Sequence)
    requires Candidate(source, anchor, start, ref, probe) && (chained ==> start == anchor)
    requires op <= dest.Length && Progress(source, anchor, before, dest[..op])
    requires CompressBound(|source|) <= dest.Length
    modifies dest
    ensures newOp <= dest.Length && Progress(source, ip, before + [s], dest[..newOp])
    ensures probe + MINMATCH <= ip <= |source| - LASTLITERALS
    ensures |s.literals| == start - anchor && s.offset == start - ref && ip == anchor + s.Length()
  {
    hide SequenceBytes;
    hide SequencesBytes;
    hide Covers;
    ProgressSize(source, anchor, before, dest[..op]);
    newOp, ip, s := PutSequence(source, anchor, start, start - ref, chained, dest, op);
    ProgressStep(source, anchor, before, old(dest[..op]), s);
  }

  lemma ArriveOf(w: Width, source: seq<byte>, after: seq<nat>, ip: nat, next: seq<nat>, hit: bool, ref: nat)
    requires |after| == w.TableSize() && 2 <= ip <= |source| - MFLIMIT
    requires var stored := after[w.Hash(source, ip - 2) := ip - 2];
             ref == stored[w.Hash(source, ip)] && next == stored[w.Hash(source, ip) := ip]
    requires hit <==> Hits(source, ref, ip)
    ensures Arrive(w, source, after, ip) == CursorOf(next, ip, hit, ref)
  {
    hide Hits;
    hide Width.Hash;
  }

  lemma ArriveAtEnd(w: Width, source: seq<byte>, after: seq<nat>, ip: nat)
    requires |after| == w.TableSize() && 2 <= ip <= |source| && ip > |source| - MFLIMIT
    ensures Arrive(w, source, after, ip) == Ending(ip)
  {}

  lemma HitIsCandidate(source: seq<byte>, ip: nat, ref: nat)
    requires ip <= |source| - MFLIMIT && Hits(source, ref, ip)
    ensures Candidate(source, ip, ip, ref, ip)
  {}

  /** Where the loop stands, from its variables. */
  ghost function CursorOf(table: seq<nat>, anchor: nat, chained: bool, ref: nat): Cursor {
    if chained then Chained(table, anchor, ref) else Searching(table, anchor)
  }

  /** One round of the loop is one move of the greedy run. */
  lemma RoundPlays(w: Width, source: seq<byte>, table: seq<nat>, anchor: nat, chained: bool, ref: nat,
                   after: seq<nat>, s: Sequence)
    requires |after| == w.TableSize() && 2 <= anchor + s.Length() <= |source|
    requires if chained then after == table && s.literals == [] && anchor == ref + s.offset
             else Found(w, source, table, anchor, anchor + |s.literals|, s.offset, after)
    ensures Plays(w, source, CursorOf(table, anchor, chained, ref), s, Arrive(w, source, after, anchor + s.Length()))
  {
    hide Found;
    hide Arrive;
  }

  /** A run of `ss` from the start to `c` that passes every check on its way. */
  ghost predicate RunsBelow(w: Width, s: seq<byte>, ss: seq<Sequence>, c: Cursor, limit: nat) {
    PlaysBelow(w, s, 0, Searching(Zeroed(w), 0), ss, c, limit)
  }

  /** Nothing is left to find behind `ss`; in a short input there is nothing at all. */
  ghost predicate Ends(w: Width, s: seq<byte>, ss: seq<Sequence>, c: Cursor) {
    if |s| < MINLENGTH then ss == [] else Stops(w, s, c)
  }

  ghost predicate EndsBelow(w: Width, s: seq<byte>, ss: seq<Sequence>, limit: nat) {
    exists c :: RunsBelow(w, s, ss, c, limit) && Ends(w, s, ss, c)
  }

  /** The run overflows in its search from `c`, behind `ss`. */
  ghost predicate StuckAt(w: Width, s: seq<byte>, ss: seq<Sequence>, c: Cursor, limit: nat) {
    && |s| >= MINLENGTH && Covers(s, 0, ss) && RunsBelow(w, s, ss, c, limit)
    && c.Searching? && Overflows(w, s, c.table, c.anchor, |SequencesBytes(ss)|, limit)
  }

  ghost predicate Stuck(w: Width, s: seq<byte>, limit: nat) {
    exists ss: seq<Sequence>, c: Cursor :: StuckAt(w, s, ss, c, limit)
  }

  /** The run comes to its end, and the check of the last literals fails. */
  ghost predicate ShortAtEnd(w: Width, s: seq<byte>, limit: nat) {
    exists ss: seq<Sequence> :: Covers(s, 0, ss) && EndsBelow(w, s, ss, limit) && !LastPasses(w, s, ss, limit)
  }

  ghost predicate LastPasses(w: Width, s: seq<byte>, ss: seq<Sequence>, limit: nat) {
    End(0, ss) <= |s| && Passes(w, |SequencesBytes(ss)|, |s| - End(0, ss), limit)
  }

  /** The limits that a compressor gives up under. */
  ghost predicate Refused(w: Width, s: seq<byte>, limit: nat) {
    Stuck(w, s, limit) || ShortAtEnd(w, s, limit)
  }

  /** A run that passes every check to its end is the only one. */
  lemma EndsOnlyOnce(w: Width, s: seq<byte>, ss: seq<Sequence>, limit: nat)
    requires Covers(s, 0, ss) && EndsBelow(w, s, ss, limit) && LastPasses(w, s, ss, limit)
    ensures !Refused(w, s, limit)
  {
    hide PlaysBelow;
    hide Covers;
    hide Stops;
    hide Passes;
    hide Overflows;
    var start := Searching(Zeroed(w), 0);
    var last :| RunsBelow(w, s, ss, last, limit) && Ends(w, s, ss, last);
    if Stuck(w, s, limit) {
      var ss', c' :| StuckAt(w, s, ss', c', limit);
      BelowToTheEnd(w, s, 0, start, ss, last, ss', c', limit);
      assert false;
    }
    if ShortAtEnd(w, s, limit) {
      var ss': seq<Sequence> :| Covers(s, 0, ss') && EndsBelow(w, s, ss', limit) && !LastPasses(w, s, ss', limit);
      if |s| >= MINLENGTH {
        var last' :| RunsBelow(w, s, ss', last', limit) && Ends(w, s, ss', last');
        BelowPlays(w, s, 0, start, ss, last, limit);
        BelowPlays(w, s, 0, start, ss', last', limit);
        PlaysAllOnce(w, s, start, ss, ss', last, last');
      }
      assert false;
    }
  }

  lemma EndsGreedily(w: Width, s: seq<byte>, ss: seq<Sequence>, limit: nat)
    requires EndsBelow(w, s, ss, limit)
    ensures Greedy(w, s, ss)
  {
    hide PlaysBelow;
    hide PlaysAll;
    hide Stops;
    var last :| RunsBelow(w, s, ss, last, limit) && Ends(w, s, ss, last);
    BelowPlays(w, s, 0, Searching(Zeroed(w), 0), ss, last, limit);
  }

  /** Lines 371-468 as one loop, up to the last literals. A chained round is one that line 463 jumped back for. */
  method Sequences(w: Width, source: seq<byte>, dest: array<byte>, maxOutputSize: nat)
    returns (ok: bool, op: nat, anchor: nat, ghost ss: seq<Sequence>)
    requires w.Accepts(|source|) && |source| >= MINLENGTH
    requires CompressBound(|source|) <= dest.Length
    modifies dest
    ensures maxOutputSize >= CompressBound(|source|) ==> ok
    ensures ok ==> op <= dest.Length && Progress(source, anchor, ss, dest[..op]) && Greedy(w, source, ss)
    ensures if ok then EndsBelow(w, source, ss, maxOutputSize) else Stuck(w, source, maxOutputSize)
  {
    hide RunsBelow;
    hide EndsBelow;
    hide Stuck;
    hide Below;
    hide Overflows;
    hide Greedy;
    hide Found;
    hide Exhausted;
    hide Arrive;
    hide Plays;
    hide PlaysAll;
    hide Zeroed;
    hide Hits;
    hide Repeats;
    hide CompressBound;
    hide Width.Hash;
    hide Progress;
    var table := new nat[w.TableSize()](_ => 0);
    if w.U32? { table[w.Hash(source, 0)] := 0; }
    op, anchor, ss := 0, 0, [];
    var ip: nat, chained, ref: nat := 1, false, 0;
    var forwardH: nat := w.Hash(source, ip);
    ProgressStart(source);
    GreedyStart(w, source, table[..]);
    assert dest[..0] == [];
    while true
      invariant op <= dest.Length && Progress(source, anchor, ss, dest[..op])
      invariant RunsBelow(w, source, ss, CursorOf(table[..], anchor, chained, ref), maxOutputSize)
      invariant Behind(table, if chained then ip + 1 else ip)
      invariant chained ==> anchor == ip && Candidate(source, anchor, ip, ref, ip)
      invariant !chained ==> ip == anchor + 1 <= |source| - MFLIMIT + 1 && forwardH == w.Hash(source, ip)
      decreases |source| - anchor
    {
      ghost var probe, before, cursor := ip, table[..], CursorOf(table[..], anchor, chained, ref);
      ghost var wasChained, oldRef, oldAnchor := chained, ref, anchor;
      if !chained {
        ProgressSize(source, anchor, ss, dest[..op]);
        var found, full;
        found, full, ip, ref, probe := Locate(w, source, table, anchor, ip, forwardH, op, maxOutputSize);
        if !found {
          RunEnds(w, source, ss, cursor, maxOutputSize);
          return true, op, anchor, ss;
        }
        if full {
          RunSticks(w, source, ss, before, anchor, dest[..op], maxOutputSize);
          return false, op, anchor, ss;
        }
      }
      ghost var after, s := table[..], Sequence([], 0, 0);
      ghost var written := dest[..op];
      op, ip, s := Advance(source, anchor, ip, ref, probe, chained, dest, op, ss);
      anchor := ip;
      RoundPlays(w, source, before, oldAnchor, wasChained, oldRef, after, s);
      RunGoesOn(w, source, ss, cursor, s, Arrive(w, source, after, ip), oldAnchor, written, maxOutputSize);
      ss := ss + [s];
      if ip > |source| - MFLIMIT {
        ArriveAtEnd(w, source, after, ip);
        RunEnds(w, source, ss, Ending(ip), maxOutputSize);
        return true, op, anchor, ss;
      }
      chained, ref := TestNext(w, source, table, ip);
      ArriveOf(w, source, after, ip, table[..], chained, ref);
      if chained {
        HitIsCandidate(source, ip, ref);
      } else {
        ip := ip + 1;
        forwardH := w.Hash(source, ip);
      }
    }
  }

  lemma GreedyStart(w: Width, source: seq<byte>, table: seq<nat>)
    requires |table| == w.TableSize() && forall h :: 0 <= h < |table| ==> table[h] == 0
    ensures forall limit :: RunsBelow(w, source, [], Searching(table, 0), limit)
  {
    assert table == Zeroed(w);
  }

  lemma RunEnds(w: Width, s: seq<byte>, ss: seq<Sequence>, c: Cursor, limit: nat)
    requires |s| >= MINLENGTH && RunsBelow(w, s, ss, c, limit)
    requires c.Ending? || (c.Searching? && Exhausted(w, s, c.table, c.anchor))
    ensures EndsBelow(w, s, ss, limit) && Greedy(w, s, ss)
  {
    hide RunsBelow;
    hide Exhausted;
    assert Ends(w, s, ss, c);
    EndsGreedily(w, s, ss, limit);
  }

  lemma RunSticks(w: Width, s: seq<byte>, ss: seq<Sequence>, table: seq<nat>, anchor: nat, written: seq<byte>, limit: nat)
    requires |s| >= MINLENGTH && RunsBelow(w, s, ss, Searching(table, anchor), limit)
    requires Progress(s, anchor, ss, written) && Overflows(w, s, table, anchor, |written|, limit)
    ensures Stuck(w, s, limit)
  {
    hide RunsBelow;
    hide Overflows;
    hide Covers;
    assert StuckAt(w, s, ss, Searching(table, anchor), limit);
  }

  lemma RunGoesOn(w: Width, s: seq<byte>, ss: seq<Sequence>, c: Cursor, x: Sequence, next: Cursor, anchor: nat,
                  written: seq<byte>, limit: nat)
    requires RunsBelow(w, s, ss, c, limit) && Plays(w, s, c, x, next) && Progress(s, anchor, ss, written)
    requires c.Searching? ==> Below(|written|, |x.literals|, limit)
    ensures RunsBelow(w, s, ss + [x], next, limit)
  {
    hide Plays;
    hide Covers;
    hide Below;
    BelowAppend(w, s, 0, Searching(Zeroed(w), 0), ss, c, x, next, limit);
  }

  /** What either compressor leaves behind: a whole block that a greedy run of it has written. */
  ghost predicate Compressed(w: Width, source: seq<byte>, ss: seq<Sequence>, bytes: seq<byte>) {
    Encodes(source, ss, bytes) && Greedy(w, source, ss)
  }

  /** The output is a function of the input: the table, the probes and the matches leave no choice. */
  lemma OutputIsDetermined(w: Width, source: seq<byte>, ss: seq<Sequence>, bytes: seq<byte>, ss': seq<Sequence>,
                           bytes': seq<byte>)
    requires Compressed(w, source, ss, bytes) && Compressed(w, source, ss', bytes')
    ensures ss == ss' && bytes == bytes'
  {
    hide Greedy;
    hide Covers;
    GreedyIsUnique(w, source, ss, ss');
  }

  /** `LZ4_compressCtx` and `LZ4_compress64kCtx`. `dest` holds at least the worst case, whatever limit is passed;
      when the limit is the worst case too the call cannot fail. */
  method CompressCtx(w: Width, source: seq<byte>, dest: array<byte>, maxOutputSize: nat)
    returns (r: int, ghost ss: seq<Sequence>)
    requires w.Accepts(|source|)
    requires CompressBound(|source|) <= dest.Length
    modifies dest
    ensures maxOutputSize >= CompressBound(|source|) ==> r != 0
    ensures r != 0 ==> 0 < r <= CompressBound(|source|) && Compressed(w, source, ss, dest[..r])
    ensures r != 0 && SetsAsideEnough(w, |source| - End(0, ss)) ==> r <= maxOutputSize
    ensures r <= maxOutputSize + 1
    ensures r == 0 <==> Refused(w, source, maxOutputSize)
  {
    hide Refused;
    hide EndsBelow;
    hide Stuck;
    hide PlaysAll;
    hide Exhausted;
    hide Greedy;
    hide Progress;
    hide Encodes;
    hide HeadBytes;
    hide CompressBound;
    hide SetsAsideEnough;
    hide LastTail;
    var op, anchor := 0, 0;
    ss := [];
    if |source| >= MINLENGTH {
      var ok;
      ok, op, anchor, ss := Sequences(w, source, dest, maxOutputSize);
      if !ok {
        StuckIsRefused(w, source, maxOutputSize);
        return 0, [];
      }
    } else {
      ProgressStart(source);
      ShortIsGreedy(w, source, maxOutputSize);
      assert dest[..0] == [];
    }
    ghost var written := dest[..op];
    LastRoom(source, anchor, ss, written);
    r := PutLast(w, source, anchor, dest, op, maxOutputSize);
    EndIsRefused(w, source, anchor, ss, written, maxOutputSize);
    if r != 0 { BlockDone(source, anchor, ss, written); }
  }

  lemma ShortIsGreedy(w: Width, source: seq<byte>, limit: nat)
    requires |source| < MINLENGTH
    ensures Greedy(w, source, []) && EndsBelow(w, source, [], limit)
  {
    assert RunsBelow(w, source, [], Searching(Zeroed(w), 0), limit) && Ends(w, source, [], Searching(Zeroed(w), 0));
  }

  lemma StuckIsRefused(w: Width, source: seq<byte>, limit: nat)
    requires Stuck(w, source, limit)
    ensures Refused(w, source, limit)
  {
    hide Stuck;
  }

  /** Behind a run that has come to its end, the last check decides. */
  lemma EndIsRefused(w: Width, source: seq<byte>, anchor: nat, ss: seq<Sequence>, written: seq<byte>, limit: nat)
    requires Progress(source, anchor, ss, written) && EndsBelow(w, source, ss, limit)
    ensures Refused(w, source, limit) <==> !Passes(w, |written|, |source| - anchor, limit)
  {
    hide EndsBelow;
    hide Covers;
    hide Passes;
    if LastPasses(w, source, ss, limit) { EndsOnlyOnce(w, source, ss, limit); }
  }

  lemma LastRoom(source: seq<byte>, anchor: nat, ss: seq<Sequence>, written: seq<byte>)
    requires Progress(source, anchor, ss, written)
    ensures anchor <= |source| && anchor == End(0, ss)
    ensures |written| + |HeadBytes(source[anchor..], 0)| < CompressBound(|source|)
  {
    ProgressSize(source, anchor, ss, written);
    TailLength(|source| - anchor);
    hide Progress;
  }

  lemma BlockDone(source: seq<byte>, anchor: nat, ss: seq<Sequence>, written: seq<byte>)
    requires Progress(source, anchor, ss, written)
    ensures anchor <= |source| && Encodes(source, ss, written + HeadBytes(source[anchor..], 0))
  {
    hide HeadBytes;
    hide Covers;
  }

  /** Which compressor an input is handed to. */
  function WidthFor(isize: nat): Width { if isize < LIMIT_64K then U16 else U32 }

  /** `LZ4_compress_limitedOutput`, with room for the worst case. */
  method CompressLimitedOutput(source: seq<byte>, dest: array<byte>, maxOutputSize: nat)
    returns (r: int, ghost ss: seq<Sequence>)
    requires CompressBound(|source|) < 0x8000_0000
    requires CompressBound(|source|) <= dest.Length
    modifies dest
    ensures maxOutputSize >= CompressBound(|source|) ==> r != 0
    ensures r != 0 ==>
              0 < r <= CompressBound(|source|) && Compressed(WidthFor(|source|), source, ss, dest[..r])
    ensures r != 0 && SetsAsideEnough(WidthFor(|source|), |source| - End(0, ss)) ==> r <= maxOutputSize
    ensures r <= maxOutputSize + 1
    ensures |source| < 4095 || |source| >= LIMIT_64K ==> r <= maxOutputSize
    ensures r == 0 <==> Refused(WidthFor(|source|), source, maxOutputSize)
  {
    hide Refused;
    hide SetsAsideEnough;
    if |source| < LIMIT_64K {
      r, ss := CompressCtx(U16, source, dest, maxOutputSize);
    } else {
      r, ss := CompressCtx(U32, source, dest, maxOutputSize);
    }
    if r != 0 { WhereTheCheckIsShort(|source| - End(0, ss)); }
  }

  /** `LZ4_compress`. */
  method Compress(source: seq<byte>, dest: array<byte>) returns (r: int, ghost ss: seq<Sequence>)
    requires CompressBound(|source|) < 0x8000_0000
    requires CompressBound(|source|) <= dest.Length
    modifies dest
    ensures 0 < r <= CompressBound(|source|)
    ensures Compressed(WidthFor(|source|), source, ss, dest[..r])
    ensures Encodes(source, ss, dest[..r])
  {
    r, ss := CompressLimitedOutput(source, dest, CompressBound(|source|));
  }
}
