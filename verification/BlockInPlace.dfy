/** The message block as the program keeps it: counters, a growing buffer and a file, changed in place. */
module BlockInPlace {
  import opened Bytes
  import opened MsgBlock
  import BlockRuns

  // What a load can come to: done, no usable header, or a read past the end of the buffer.
  datatype Load = Loaded | BadHeader | Overran

  // The two process-wide totals every block adds to and subtracts from.
  class Counters {
    var openHandlers: int
    var totalMemory: int

    constructor ()
      ensures openHandlers == 0 && totalMemory == 0
    {
      openHandlers, totalMemory := 0, 0;
    }
  }

  const NO_REC: Rec := Zeros(RECORD_LEN)

  class CMsgBlock {
    const counters: Counters
    const junk: Junk       // what the object's first buffer holds before anything is written to it
    var handlerOpen: bool
    var headerLoaded: bool
    var h: Header
    var mem: array<Rec>    // length 0 stands for the null pointer
    var file: str

    function MemSize(): nat
      reads this
    {
      Size(mem.Length)
    }

    function Handles(): nat
      reads this
    {
      if handlerOpen then 1 else 0
    }

    // Header and records are in memory, and the buffer covers the records.
    ghost predicate Resident()
      reads this
    {
      headerLoaded && h.total <= mem.Length
    }

    // Resident, or nothing but perhaps the header was loaded yet and the file can be.
    ghost predicate Usable(short: seq<nat>)
      reads this
    {
      || Resident()
      || (mem.Length == 0 && Loadable(file, short)
          && h == if headerLoaded then FileHeader(file) else EMPTY_HEADER)
    }

    // The states the object can be in when a message arrives: resident, or at most its header was loaded.
    ghost predicate Plausible()
      reads this
    {
      || Resident()
      || (mem.Length == 0
          && (headerLoaded ==> HeaderReadable(file) && h == FileHeader(file))
          && (!headerLoaded && file == [] ==> h == EMPTY_HEADER))
    }

    // The header once it is loaded.
    ghost function LoadedHeader(): Header
      reads this
    {
      if headerLoaded || file == [] || !HeaderReadable(file) then h else FileHeader(file)
    }

    // What a load makes of a plausible object: failed, past the end of the buffer, or done.
    ghost function LoadOutcome(short: seq<nat>): Load
      reads this
    {
      if mem.Length > 0 then Loaded
      else if !headerLoaded && !HeaderReadable(file) then BadHeader
      else if Overruns(LoadedHeader().total, short) then Overran
      else Loaded
    }

    ghost predicate Overruns(n: nat, short: seq<nat>)
      reads this
    {
      n > 0 && LoadEnd(short, Size(n), |Body(file)|, 0) > Size(n)
    }

    // And the value it has then; the buffer keeps its old bytes where the file ends early.
    ghost function LoadedValue(): (b: Block)
      requires Plausible()
      reads this, mem
    {
      if Resident() then Block(h, mem[..h.total], file)
      else Block(LoadedHeader(), LoadedRecords(file, junk, LoadedHeader().total), file)
    }

    lemma UsableLoads(short: seq<nat>)
      requires Usable(short)
      ensures Plausible() && LoadOutcome(short).Loaded? && LoadedValue() == Value(short)
    {
      if !Resident() { LoadedFromFile(file, junk, LoadedHeader().total); }
    }

    ghost function Value(short: seq<nat>): (b: Block)
      requires Usable(short)
      reads this, mem
    {
      if Resident() then Block(h, mem[..h.total], file) else FileBlock(file)
    }

    // What one call leaves behind in the process-wide totals.
    twostate predicate Accounted()
      reads this, counters
    {
      && counters.totalMemory - old(counters.totalMemory) == MemSize() - old(MemSize())
      && counters.openHandlers - old(counters.openHandlers) == Handles() - old(Handles())
    }

    constructor (counters: Counters, file: str, junk: Junk)
      ensures !handlerOpen && !headerLoaded && h == EMPTY_HEADER && mem.Length == 0 && this.file == file
      ensures this.counters == counters && this.junk == junk && fresh(mem)
    {
      this.counters, this.junk := counters, junk;
      handlerOpen, headerLoaded, h := false, false, EMPTY_HEADER;
      mem := new Rec[0];
      this.file := file;
    }

    method Open()
      modifies this`handlerOpen, counters
      ensures handlerOpen && Accounted()
    {
      if handlerOpen { return; }
      handlerOpen := true;
      counters.openHandlers := counters.openHandlers + 1;
    }

    method CloseHandler()
      modifies this`handlerOpen, counters
      ensures !handlerOpen && Accounted()
    {
      if !handlerOpen { return; }
      handlerOpen := false;
      counters.openHandlers := counters.openHandlers - 1;
    }

    method Destruct()
      modifies this`handlerOpen, this`mem, counters
      ensures !handlerOpen && MemSize() == 0 && Accounted()
    {
      CloseHandler();
      counters.totalMemory := counters.totalMemory - MemSize();
      mem := new Rec[0];
    }

    // False stands for the exception on a short header or a wrong version.
    method LoadHeader() returns (ok: bool)
      modifies this`handlerOpen, this`headerLoaded, this`h, counters
      ensures handlerOpen && Accounted()
      ensures ok == HeaderReadable(file)
      ensures ok ==> headerLoaded && h == if file == [] then old(h) else FileHeader(file)
      ensures !ok ==> headerLoaded == old(headerLoaded)
    {
      Open();
      var n := if |file| < HEADER_LEN then |file| else HEADER_LEN;
      if n == 0 {
        headerLoaded := true;
        return true;
      }
      var raw := WriteAt(EncHeader(h), 0, file[..n]);
      h := DecHeader(raw);
      if n != HEADER_LEN || raw[0] != 1 { return false; }
      assert raw == file[..HEADER_LEN];
      headerLoaded := true;
      ok := true;
    }

    // The read loop: the buffer offset moves on, the requested length does not. It stops before a read
    // that would leave the buffer. fill is what the buffer holds before.
    method ReadLoop(size: nat, short: seq<nat>, fill: Junk) returns (ok: bool, buf: array<byte>)
      requires 0 < size
      ensures fresh(buf) && buf.Length == size
      ensures ok == (LoadEnd(short, size, |Body(file)|, 0) <= size)
      ensures ok ==> forall k :: 0 <= k < size ==> buf[k] == LoadedByte(file, fill, k)
    {
      buf := new byte[size](k requires 0 <= k => fill(k));
      var body := Body(file);
      var done, left := 0, short;
      while true
        invariant done <= |body| && done < size
        invariant forall k :: 0 <= k < done ==> buf[k] == body[k]
        invariant forall k :: done <= k < size ==> buf[k] == fill(k)
        invariant LoadEnd(left, size, |body|, done) == LoadEnd(short, size, |body|, 0)
        decreases |body| - done
      {
        var n := ReadLen(left, size, |body| - done);
        LoadEndBound(if left == [] then [] else left[1..], size, |body|, done + n);
        if done + n > size { return false, buf; }
        CopyChunk(buf, body, done, n);
        done := done + n;
        left := if left == [] then [] else left[1..];
        if n == 0 || done == size { break; }
      }
      ok := true;
    }

    // What one read() stores.
    static method CopyChunk(buf: array<byte>, body: str, done: nat, n: nat)
      requires done + n <= buf.Length && done + n <= |body|
      modifies buf
      ensures forall k :: 0 <= k < buf.Length ==>
                buf[k] == if done <= k < done + n then body[k] else old(buf[k])
    {
      forall i | 0 <= i < n { buf[done + i] := body[done + i]; }
    }

    // Reads into the buffer it finds if that is large enough. A smaller one is left behind, still counted.
    method LoadAllRecords(short: seq<nat>) returns (r: Load)
      modifies this, mem, counters
      ensures handlerOpen && file == old(file) && (mem == old(mem) || fresh(mem))
      ensures r.BadHeader? <==> !old(headerLoaded) && !HeaderReadable(file)
      ensures r.BadHeader? ==> mem == old(mem) && Accounted() && (old(Plausible()) ==> Plausible())
      ensures !r.BadHeader? ==> headerLoaded && h == old(LoadedHeader())
      ensures !r.BadHeader? ==> mem.Length == BufferFor(old(mem.Length), h.total)
      ensures r.Overran? <==> !r.BadHeader? && Overruns(mem.Length, short)
      ensures r.Loaded? ==>
                Resident()
                && mem[..] == LoadedRecords(file, if old(mem.Length) < h.total then junk else OldBytes(old(mem[..])),
                                            mem.Length)
      ensures 0 < old(mem.Length) < mem.Length ==>
                counters.totalMemory == old(counters.totalMemory) + MemSize()
                && counters.openHandlers - old(counters.openHandlers) == Handles() - old(Handles())
      ensures !(0 < old(mem.Length) < mem.Length) ==> Accounted()
      ensures old(mem.Length == 0 && Plausible()) ==>
                r == old(LoadOutcome(short)) && (r.Loaded? ==> Value([]) == old(LoadedValue()))
    {
      Open();
      if !headerLoaded {
        var ok := LoadHeader();
        if !ok { return BadHeader; }
      }
      if h.total == 0 {
        DropBuffer();
        return Loaded;
      }
      var ok := LoadRecords(short);
      r := if ok then Loaded else Overran;
    }

    method DropBuffer()
      modifies this`mem, counters
      ensures fresh(mem) && mem.Length == 0 && Accounted() && mem[..] == []
    {
      counters.totalMemory := counters.totalMemory - MemSize();
      mem := new Rec[0];
    }

    method LoadRecords(short: seq<nat>) returns (ok: bool)
      requires h.total > 0
      modifies this`mem, mem, counters
      ensures (mem == old(mem) || fresh(mem)) && mem.Length == BufferFor(old(mem.Length), h.total)
      ensures counters.openHandlers == old(counters.openHandlers)
      ensures counters.totalMemory == old(counters.totalMemory) + if mem == old(mem) then 0 else MemSize()
      ensures mem == old(mem) <==> old(mem.Length) >= h.total
      ensures ok <==> !Overruns(mem.Length, short)
      ensures ok ==>
                mem[..] == LoadedRecords(file, if old(mem.Length) < h.total then junk else OldBytes(old(mem[..])),
                                         mem.Length)
    {
      var fill := if mem.Length < h.total then junk else OldBytes(mem[..]);
      if mem.Length < h.total {
        mem := new Rec[h.total](i requires 0 <= i => JunkRecord(junk, i));
        counters.totalMemory := counters.totalMemory + MemSize();
      }
      var buf;
      ok, buf := ReadLoop(MemSize(), short, fill);
      CopyIn(buf[..]);
      if ok { BufferRecords(file, fill, mem.Length, buf[..], mem[..]); }
    }

    // The byte buffer, seen as records.
    method CopyIn(bytes: str)
      requires |bytes| == MemSize()
      modifies mem
      ensures forall i :: 0 <= i < mem.Length ==> mem[..][i] == bytes[Size(i)..Size(i + 1)]
    {
      forall i | 0 <= i < mem.Length { mem[i] := bytes[Size(i)..Size(i + 1)]; }
    }

    // Grows the buffer by ten records, once, when the next record does not fit.
    method GetOffsetForNextRecord() returns (slot: nat)
      modifies this`mem, counters
      ensures slot == h.total && Accounted() && (mem == old(mem) || fresh(mem))
      ensures mem.Length == if h.total < old(mem.Length) then old(mem.Length) else old(mem.Length) + 10
      ensures mem[..old(mem.Length)] == old(mem[..])
      ensures old(mem.Length) == 0 && mem != old(mem) ==> mem[..] == JunkRecords(junk, RECORDS_STEP)
    {
      if Size(h.total + 1) > MemSize() {
        var newMem := new Rec[mem.Length + RECORDS_STEP](i requires 0 <= i => JunkRecord(junk, i));
        forall i | 0 <= i < mem.Length { newMem[i] := mem[i]; }
        counters.totalMemory := counters.totalMemory - MemSize() + Size(newMem.Length);
        mem := newMem;
      }
      slot := h.total;
    }

    method AppendRecord(rec: Rec) returns (ok: bool)
      requires h.total < MAX_MSG_IN_BLOCK && (Resident() || mem.Length == 0)
      modifies this, mem, counters
      ensures Accounted() && (mem == old(mem) || fresh(mem)) && headerLoaded == old(headerLoaded)
      ensures ok == (old(h.total) < old(mem.Length) + RECORDS_STEP)
      ensures old(Resident()) ==> ok && Resident() && Value([]) == Append(old(Value([])), rec)
      ensures !old(Resident()) && ok && headerLoaded ==>
                Resident() && Value([]) == ColdAdded(old(h), old(file), junk, rec)
    {
      ghost var recs := if Resident() then mem[..h.total] else JunkRecords(junk, h.total);
      var slot := GetOffsetForNextRecord();
      if slot >= mem.Length { return false; }
      assert mem[..slot] == recs;
      mem[slot] := rec;
      h := h.(total := h.total + 1, unread := Inc32(h.unread));
      StoreHeader();
      file := file + rec;
      assert mem[..h.total] == recs + [rec];
      ok := true;
    }

    method StoreHeader()
      modifies this`file, this`handlerOpen, counters
      ensures handlerOpen && file == WriteAt(old(file), 0, EncHeader(h)) && Accounted()
    {
      Open();
      file := WriteAt(file, 0, EncHeader(h));
    }

    // With the records in memory this is the specified Add. Otherwise only the header is loaded.
    method Add(now: nat, from: str, id: str) returns (r: Reply)
      requires Plausible()
      modifies this, mem, counters
      ensures Accounted() && (mem == old(mem) || fresh(mem)) && (!r.Overrun? ==> Plausible())
      ensures old(Resident()) ==> Resident() && (Value([]), r) == MsgBlock.Add(old(Value([])), now, from, id)
      ensures !old(Resident()) && !HeaderReadable(old(file)) ==>
                file == old(file) && r == if ValidArgs(from, id) then HeaderError else ColdReply(EMPTY_HEADER, from, id)
      ensures !old(Resident()) && HeaderReadable(old(file)) ==> r == ColdReply(FileHeader(old(file)), from, id)
      ensures !old(Resident()) && HeaderReadable(old(file)) && r.Added? ==>
                Resident()
                && Value([]) == ColdAdded(FileHeader(old(file)), old(file), junk, NewRecord(now, from, id))
      ensures !old(Resident()) && !r.Added? && !r.Overrun? ==> file == old(file) && mem == old(mem)
    {
      if |from| > 16 { return BadNumberTooLong; }
      if |from| < 3 { return BadNumberTooShort; }
      if |id| > 32 { return BadFileTooLong; }
      if |id| < 1 { return BadFileTooShort; }
      Open();
      if !headerLoaded {
        var ok := LoadHeader();
        if !ok { return HeaderError; }
      }
      r := AddLoaded(NewRecord(now, from, id));
    }

    // From the point where the header is known.
    method AddLoaded(rec: Rec) returns (r: Reply)
      requires headerLoaded && handlerOpen && (Resident() || mem.Length == 0)
      modifies this, mem, counters
      ensures Accounted() && (mem == old(mem) || fresh(mem)) && headerLoaded
      ensures old(Resident()) ==> Resident() && (Value([]), r) == AddRecord(old(Value([])), rec)
      ensures !old(Resident()) ==> r == ColdRecordReply(old(h))
      ensures !old(Resident()) && r.Added? ==> Resident() && Value([]) == ColdAdded(old(h), old(file), junk, rec)
      ensures !old(Resident()) && r.NoSpace? ==> file == old(file) && mem == old(mem) && h == old(h)
    {
      if h.total >= MAX_MSG_IN_BLOCK {
        if h.deleted == 0 { return NoSpace; }
        var gaveUp := Compress();
        if h.total >= MAX_MSG_IN_BLOCK { return NoSpace; }
      }
      var ok := AppendRecord(rec);
      r := if ok then Added else Overrun;
    }

    // Copies the records that are not deleted into a buffer of the same size.
    method CopyLive() returns (copy: array<Rec>, kept: nat)
      requires Resident()
      ensures fresh(copy) && copy.Length == mem.Length && kept <= h.total
      ensures copy[..kept] == Live(mem[..h.total])
    {
      copy := new Rec[mem.Length](_ => NO_REC);
      kept := 0;
      for i := 0 to h.total
        invariant kept <= i
        invariant copy[..kept] == Live(mem[..i])
      {
        assert mem[..i + 1][..i] == mem[..i];
        if Status(mem[i]) == STATUS_DELETED { continue; }
        copy[kept] := mem[i];
        assert copy[..kept + 1] == copy[..kept] + [mem[i]];
        kept := kept + 1;
      }
    }

    // Does nothing while no record is in memory. The branch that gives up is for counters that are wrong.
    method Compress() returns (gaveUp: bool)
      requires (Resident() || mem.Length == 0) && handlerOpen
      modifies this`h, this`file, mem
      ensures mem.Length == 0 ==> h == old(h) && file == old(file) && !gaveUp
      ensures old(Resident()) ==> Resident() && Value([]) == MsgBlock.Compress(old(Value([])))
      ensures mem.Length > 0 ==> (gaveUp <==> old(h.deleted != 0 && |Live(mem[..h.total])| == h.total))
      ensures old(Resident() && BlockRuns.Exact(Value([]))) ==> !gaveUp
    {
      gaveUp := false;
      if mem.Length == 0 || h.deleted == 0 { return; }
      ghost var b := Value([]);
      var copy, kept := CopyLive();
      var dropped := h.total - kept;
      assert Value([]) == b;
      if dropped == 0 || Size(kept) >= MemSize() || h.total < dropped { return true; }
      StoreCompressed(h.(total := kept, deleted := 0), copy, kept);
      CompressedValue(b, mem[..h.total], h);
    }

    method StoreCompressed(h': Header, copy: array<Rec>, kept: nat)
      requires copy != mem && kept <= copy.Length == mem.Length && h'.total == kept
      modifies this`h, this`file, mem
      ensures h == h' && mem[..kept] == copy[..kept]
      ensures file == WriteAt(old(file), 0, EncHeader(h) + Flat(copy[..kept]))
    {
      h := h';
      forall i | 0 <= i < kept { mem[i] := copy[i]; }
      assert mem[..kept] == copy[..kept];
      file := WriteAt(file, 0, EncHeader(h) + Flat(mem[..kept]));
    }

    // Needs the header only.
    method GetCount() returns (ok: bool, total: uint32, unread: uint32)
      modifies this`handlerOpen, this`headerLoaded, this`h, counters
      ensures handlerOpen && Accounted() && ok == (old(headerLoaded) || HeaderReadable(file))
      ensures ok ==> headerLoaded && h == old(LoadedHeader()) && total == h.total && unread == h.unread
      ensures old(Plausible()) ==> Plausible()
    {
      Open();
      ok := true;
      if !headerLoaded { ok := LoadHeader(); }
      total, unread := h.total, h.unread;
    }

    // Loads the records if no buffer is there.
    method EnsureLoaded(short: seq<nat>) returns (r: Load)
      requires Plausible()
      modifies this, mem, counters
      ensures Accounted() && (mem == old(mem) || fresh(mem)) && file == old(file)
      ensures r == old(LoadOutcome(short))
      ensures r.Loaded? ==> Resident() && Value([]) == old(LoadedValue())
      ensures r.BadHeader? ==> Plausible()
    {
      r := Loaded;
      if mem.Length == 0 { r := LoadAllRecords(short); }
    }

    method GetIds(q: Query, short: seq<nat>) returns (r: Load, ids: seq<IdLine>)
      requires Plausible()
      modifies this, mem, counters
      ensures Accounted() && (mem == old(mem) || fresh(mem)) && file == old(file) && (!r.Overran? ==> Plausible())
      ensures r == old(LoadOutcome(short))
      ensures r.Loaded? ==> Resident() && Value([]) == old(LoadedValue()) && ids == MsgBlock.GetIds(Value([]), q)
    {
      ids := [];
      r := EnsureLoaded(short);
      if !r.Loaded? || h.total == 0 { return; }
      if q.New? && h.unread == 0 { return; }
      if q.Other? {
        NothingListed(mem[..h.total], Other);
        return;
      }
      ids := ListRecords(q);
    }

    method ListRecords(q: Query) returns (ids: seq<IdLine>)
      requires Resident() && !q.Other?
      ensures ids == Lines(Listed(mem[..h.total], q))
    {
      ids := [];
      for i := 0 to h.total
        invariant ids == Lines(Listed(mem[..i], q))
      {
        assert mem[..i + 1][..i] == mem[..i];
        var status := Status(mem[i]);
        if q.New? && status != STATUS_NEW { continue; }
        if status == STATUS_DELETED { continue; }
        if status != STATUS_NEW && status != STATUS_READ { continue; }
        ids := ids + [LineOf(mem[i])];
      }
    }

    // Position of the first record with this id, or the record count.
    method FindId(id: str) returns (i: nat)
      requires Resident()
      ensures i == FirstIndex(Value([]).recs, id)
    {
      i := 0;
      while i < h.total && Id(mem[i]) != id
        invariant i <= h.total
        invariant forall j :: 0 <= j < i ==> Id(mem[j]) != id
      {
        i := i + 1;
      }
      FirstIndexUnique(mem[..h.total], id, i);
    }

    method UpdateStoreStatus(i: nat, pos: nat, status: byte)
      requires Resident() && i < h.total
      modifies this`file, this`handlerOpen, mem, counters
      ensures Resident() && handlerOpen && Accounted()
      ensures mem[..h.total] == old(mem[..h.total])[i := WithStatus(old(mem[i]), status)]
      ensures file == WriteAt(old(file), pos, [status])
    {
      Open();
      mem[i] := WithStatus(mem[i], status);
      file := WriteAt(file, pos, [status]);
    }

    method ReadMessage(id: str, text: Option<str>, short: seq<nat>) returns (r: Reply)
      requires Plausible()
      modifies this, mem, counters
      ensures Accounted() && (mem == old(mem) || fresh(mem)) && (!r.Overrun? ==> Plausible())
      ensures old(LoadOutcome(short)).BadHeader? ==> r == HeaderError && file == old(file)
      ensures old(LoadOutcome(short)).Overran? ==> r == Overrun && file == old(file)
      ensures old(LoadOutcome(short)).Loaded? ==>
                Resident() && (Value([]), r) == MsgBlock.Read(old(LoadedValue()), id, text)
    {
      var loaded := EnsureLoaded(short);
      if loaded.BadHeader? { return HeaderError; }
      if loaded.Overran? { return Overrun; }
      r := ReadLoaded(id, text);
    }

    method ReadLoaded(id: str, text: Option<str>) returns (r: Reply)
      requires Resident()
      modifies this, mem, counters
      ensures Resident() && Accounted() && mem == old(mem)
      ensures (Value([]), r) == MsgBlock.Read(old(Value([])), id, text)
    {
      if h.total == 0 { return NoMessages; }
      var i := FindId(id);
      if i == h.total { return NotFound; }
      if Status(mem[i]) == STATUS_DELETED { return MessageDeleted; }
      if text.None? { return LoadFailed; }
      r := Text(mem[i], text.value);
      if Status(mem[i]) == STATUS_NEW { MarkReadAt(i); }
    }

    method MarkReadAt(i: nat)
      requires Resident() && i < h.total && Status(mem[i]) == STATUS_NEW
      modifies this, mem, counters
      ensures Resident() && Accounted() && mem == old(mem)
      ensures Value([]) == MarkRead(old(Value([])), i)
    {
      h := h.(unread := Dec32(h.unread));
      StoreHeader();
      UpdateStoreStatus(i, Size(i + 1) + HEADER_LEN, STATUS_READ);
    }

    method MarkDeletedAt(i: nat)
      requires Resident() && i < h.total
      modifies this, mem, counters
      ensures Resident() && handlerOpen && Accounted() && mem == old(mem)
      ensures Value([]) == MarkDeleted(old(Value([])), i)
    {
      if Status(mem[i]) == STATUS_NEW {
        h := h.(unread := Dec32(h.unread));
      }
      h := h.(deleted := Inc32(h.deleted));
      StoreHeader();
      UpdateStoreStatus(i, Size(i) + HEADER_LEN, STATUS_DELETED);
    }

    method DeleteMessage(id: str, short: seq<nat>) returns (r: Reply)
      requires Plausible()
      modifies this, mem, counters
      ensures Accounted() && (mem == old(mem) || fresh(mem)) && (!r.Overrun? ==> Plausible())
      ensures old(LoadOutcome(short)).BadHeader? ==> r == HeaderError && file == old(file)
      ensures old(LoadOutcome(short)).Overran? ==> r == Overrun && file == old(file)
      ensures old(LoadOutcome(short)).Loaded? ==>
                Resident() && (Value([]), r) == MsgBlock.Delete(old(LoadedValue()), id)
    {
      Open();
      var loaded := EnsureLoaded(short);
      if loaded.BadHeader? { return HeaderError; }
      if loaded.Overran? { return Overrun; }
      r := DeleteLoaded(id);
    }

    method DeleteLoaded(id: str) returns (r: Reply)
      requires Resident()
      modifies this, mem, counters
      ensures Resident() && Accounted() && mem == old(mem)
      ensures (Value([]), r) == MsgBlock.Delete(old(Value([])), id)
    {
      if h.total == 0 { return NotFound; }
      var i := FindId(id);
      if i == h.total { return NotFound; }
      if Status(mem[i]) == STATUS_DELETED { return AlreadyDeleted; }
      DeleteAt(i);
      r := Deleted;
    }

    method DeleteAt(i: nat)
      requires Resident() && i < h.total
      modifies this, mem, counters
      ensures Resident() && Accounted() && mem == old(mem)
      ensures Value([]) == Compacted(MarkDeleted(old(Value([])), i))
    {
      MarkDeletedAt(i);
      IsCompressIsIntegral(h.deleted, h.total);
      if h.deleted > 0 && IsCompress(h.deleted, h.total) {
        var gaveUp := Compress();
      }
    }
  }

  lemma CompressedValue(b: Block, live: seq<Rec>, h: Header)
    requires live == Live(b.recs) && b.h.total > |live| && b.h.deleted != 0
    requires h == b.h.(total := |live|, deleted := 0)
    ensures MsgBlock.Compress(b) == Block(h, live, WriteAt(b.file, 0, EncHeader(h) + Flat(live)))
  {
  }

  // What follows the header in the file.
  function Body(file: str): str { if |file| < HEADER_LEN then [] else file[HEADER_LEN..] }

  lemma BufferRecords(file: str, junk: Junk, n: nat, bytes: str, rs: seq<Rec>)
    requires |bytes| == Size(n) && |rs| == n
    requires forall k :: 0 <= k < |bytes| ==> bytes[k] == LoadedByte(file, junk, k)
    requires forall i :: 0 <= i < n ==> rs[i] == bytes[Size(i)..Size(i + 1)]
    ensures rs == LoadedRecords(file, junk, n)
  {
    forall i | 0 <= i < n ensures rs[i] == LoadedRecord(file, junk, i) {
      var a, b := rs[i], LoadedRecord(file, junk, i);
      assert Size(i + 1) <= |bytes| && forall k :: 0 <= k < |a| ==> a[k] == bytes[Size(i) + k];
      assert |a| == |b| && forall k :: 0 <= k < |a| ==> a[k] == b[k];
    }
  }

  lemma {:induction false} LoadEndBound(short: seq<nat>, size: nat, body: nat, done: nat)
    requires 0 < size && done <= body
    ensures LoadEnd(short, size, body, done) >= done
    decreases body - done
  {
    var n := ReadLen(short, size, body - done);
    if n != 0 && done + n != size {
      LoadEndBound(if short == [] then [] else short[1..], size, body, done + n);
    }
  }
}
