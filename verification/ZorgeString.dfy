/** The string class: one buffer with a terminator, changed in place. */
module ZorgeString {
  import opened Bytes
  import opened Strings

  // memcpy of bytes that do not come from the destination.
  method Copy(dst: array<byte>, at: nat, bytes: str)
    requires at + |bytes| <= dst.Length
    modifies dst
    ensures dst[..at + |bytes|] == old(dst[..at]) + bytes
    ensures forall i :: at <= i < at + |bytes| ==> dst[i] == bytes[i - at]
    ensures forall i :: 0 <= i < at || at + |bytes| <= i < dst.Length ==> dst[i] == old(dst[i])
  {
    forall i | 0 <= i < |bytes| { dst[at + i] := bytes[i]; }
  }

  // The same, followed by the terminator.
  method CopyString(dst: array<byte>, at: nat, bytes: str)
    requires at + |bytes| < dst.Length
    modifies dst
    ensures dst[..at + |bytes|] == old(dst[..at]) + bytes && dst[at + |bytes|] == 0
  {
    Copy(dst, at, bytes);
    dst[at + |bytes|] := 0;
  }

  lemma NulFreeAppend(a: str, b: str)
    requires NulFree(a) && NulFree(b)
    ensures NulFree(a + b)
  {
  }

  lemma Rejoin(a: str, s: str, last: nat, p: nat)
    requires last <= p <= |s|
    ensures (a + s[last..p]) + s[p..] == a + s[last..]
    ensures a + s[p..p] == a
  {
    assert s[last..p] + s[p..] == s[last..];
  }

  lemma Extend(a: str, s: str, last: nat, p: nat)
    requires last <= p < |s|
    ensures (a + s[last..p]) + [s[p]] == a + s[last..p + 1]
  {
    assert s[last..p] + [s[p]] == s[last..p + 1];
  }

  // Two strings agree from position p to the end of the second.
  predicate AgreeFrom(a: str, s: str, p: nat)
  {
    p <= |s| <= |a| && forall i :: p <= i < |s| ==> a[i] == s[i]
  }

  lemma AgreeSlice(a: str, s: str, p: nat, n: nat)
    requires AgreeFrom(a, s, p) && p + n <= |s|
    ensures a[p..p + n] == s[p..p + n]
  {
  }

  lemma Whole(a: str, s: str, p: nat)
    requires AgreeFrom(a, s, p)
    ensures a[..|s|] == a[..p] + s[p..]
  {
  }

  // The smallest multiple of 16 above n.
  function RoundUp(n: nat): (r: nat)
    ensures n < r <= n + 16
  {
    assert n == 16 * (n / 16) + n % 16;
    (n / 16 + 1) * 16
  }

  class CZorgeString {
    var data: array?<byte>
    var used: nat
    var allocStep: nat

    // m_nAlloc
    function Alloc(): nat
      reads this
    {
      if data == null then 0 else data.Length
    }

    ghost predicate Valid()
      reads this, data
    {
      if data == null then used == 0
      else used < data.Length && NulFree(data[..used]) && data[used] == 0
    }

    ghost function Contents(): str
      reads this, data
      requires Valid()
    {
      if data == null then [] else data[..used]
    }

    constructor ()
      ensures Valid() && Contents() == [] && data == null && allocStep == 0
    {
      data := null;
      used, allocStep := 0, 0;
    }

    // A null pointer, or a zero-terminated string outside the buffer; len 0 asks for all of it.
    method SetData(sz: Option<Text>, len: nat)
      requires Valid()
      modifies this`data, this`used, data
      ensures Valid()
      ensures data == old(data) || (data != null && fresh(data))
      ensures Contents() ==
              if sz.None? then [] else if 0 < len < |sz.value| then sz.value[..len] else sz.value
    {
      if sz.None? {
        used := 0;
        if data != null { data[0] := 0; }
        return;
      }
      var n := if len == 0 then |sz.value| else len;
      var toCopy := if |sz.value| < n then |sz.value| else n;
      if toCopy == 0 {
        used := 0;
        if data != null { data[0] := 0; }
        return;
      }
      if toCopy >= Alloc() {
        var size := RoundUp(n);
        if size < allocStep { size := RoundUp(allocStep); }
        data := new byte[size];
      }
      used := toCopy;
      CopyString(data, 0, sz.value[..toCopy]);
      assert data[..used] == sz.value[..toCopy];
    }

    // The length argument only counts as long as nothing is allocated.
    method AppendData(sz: Option<Text>, len: nat)
      requires Valid()
      modifies this`data, this`used, data
      ensures Valid()
      ensures data == old(data) || (data != null && fresh(data))
      ensures sz.None? ==> Contents() == old(Contents()) && data == old(data)
      ensures sz.Some? && old(Alloc()) == 0 ==>
                Contents() == if 0 < len < |sz.value| then sz.value[..len] else sz.value
      ensures sz.Some? && old(Alloc()) != 0 ==> Contents() == old(Contents()) + sz.value
    {
      if sz.None? { return; }
      if Alloc() == 0 {
        SetData(sz, len);
        return;
      }
      ghost var before := Contents();
      var free := Alloc() - used - 1;
      NulFreeAppend(before, sz.value);
      if free > |sz.value| {
        CopyString(data, used, sz.value);
      } else {
        var more := new byte[RoundUp(used + |sz.value| + allocStep)];
        Copy(more, 0, data[..used]);
        assert more[..used] == before;
        CopyString(more, used, sz.value);
        data := more;
      }
      used := used + |sz.value|;
      assert data[..used] == before + sz.value;
    }

    method CountForReplace(src: Text) returns (n: nat)
      requires Valid() && data != null && src != []
      ensures n == Count(Contents(), src)
    {
      ghost var s := Contents();
      ghost var rests, counts := MakeTable(s, src, []);
      n := 0;
      var p: nat, left: nat := 0, used;
      while data[p] != 0
        invariant p + left == used
        invariant n + counts[p] == counts[0]
        decreases left
      {
        if left < |src| { break; }
        ScanTurn(s, src, [], rests, counts, p, []);
        AgreeSlice(data[..], s, p, |src|);
        if data[p..p + |src|] == src {
          p, left, n := p + |src|, left - |src|, n + 1;
        } else {
          p, left := p + 1, left - 1;
        }
      }
      ScanEnd(s, src, [], rests, counts, p);
    }

    // The path for a source and a target of the same length: nothing moves.
    method ReplaceInPlace(src: Text, tgt: Text)
      requires Valid() && data != null && |src| == |tgt| > 0
      modifies data
      ensures Valid() && Contents() == Replaced(old(Contents()), src, tgt)
    {
      ghost var s := Contents();
      ghost var rests, counts := MakeTable(s, src, tgt);
      var p: nat, left: nat := 0, used;
      while data[p] != 0
        invariant p + left == used
        invariant Valid() && AgreeFrom(data[..], s, p)
        invariant data[..p] + rests[p] == rests[0]
        decreases left
      {
        if left < |src| { break; }
        ScanTurn(s, src, tgt, rests, counts, p, data[..p]);
        AgreeSlice(data[..], s, p, |src|);
        if data[p..p + |src|] == src {
          Overwrite(tgt, p, s);
          p, left := p + |src|, left - |src|;
        } else {
          assert data[..p + 1] == data[..p] + [s[p]];
          p, left := p + 1, left - 1;
        }
      }
      ScanEnd(s, src, tgt, rests, counts, p);
      Whole(data[..], s, p);
    }

    // Writes over the next bytes of the unscanned part.
    method Overwrite(tgt: Text, p: nat, ghost s: str)
      requires Valid() && data != null && p + |tgt| <= used == |s| && AgreeFrom(data[..], s, p)
      modifies data
      ensures Valid() && data[..p + |tgt|] == old(data[..p]) + tgt && AgreeFrom(data[..], s, p + |tgt|)
    {
      Copy(data, p, tgt);
    }

    // The other two paths: build the result in a fresh buffer, then take it over.
    method ReplaceInCopy(src: Text, tgt: Text)
      requires Valid() && data != null && src != [] && tgt != [] && |src| != |tgt|
      modifies this`data, this`used, data
      ensures Valid() && data != null && (data == old(data) || fresh(data))
      ensures Contents() == Replaced(old(Contents()), src, tgt)
    {
      ghost var s := Contents();
      ghost var goal := Replaced(s, src, tgt);
      var newSize := used + 1;
      if |tgt| > |src| {
        var n := CountForReplace(src);
        if n == 0 {
          NothingToReplace(s, src, tgt);
          return;
        }
        newSize := n * (|tgt| - |src|) + used + 1;
        ReplacedLength(s, src, tgt);
      } else {
        ReplacedShrinks(s, src, tgt);
      }
      ReplacedNulFree(s, src, tgt);
      var copy := BuildCopy(src, tgt, newSize);
      assert copy[..|goal|] == goal;
      CStringUnique(copy[..], goal);
      SetData(Some(CString(copy[..])), 0);
    }

    // The scan writes the skipped bytes late, just before each target and once at the end.
    method BuildCopy(src: Text, tgt: Text, newSize: nat) returns (copy: array<byte>)
      requires Valid() && data != null && src != []
      requires newSize > |Replaced(Contents(), src, tgt)|
      ensures fresh(copy) && copy.Length == newSize
      ensures var r := Replaced(Contents(), src, tgt);
              copy[..|r|] == r && copy[|r|] == 0
    {
      ghost var s := Contents();
      ghost var rests, counts := MakeTable(s, src, tgt);
      copy := new byte[newSize];
      var p: nat, last: nat, q: nat, left: nat := 0, 0, 0, used;
      ghost var done: str := [];
      while data[p] != 0
        invariant last <= p && p + left == used
        invariant AgreeFrom(data[..], s, 0)
        invariant q <= newSize && done == copy[..q] + s[last..p]
        invariant done + rests[p] == rests[0]
        decreases left
      {
        if left < |src| { break; }
        ScanTurn(s, src, tgt, rests, counts, p, done);
        AgreeSlice(data[..], s, p, |src|);
        if data[p..p + |src|] == src {
          done := done + tgt;
          q := Flush(copy, q, last, p, tgt, s, done);
          p, left := p + |src|, left - |src|;
          last := p;
          Rejoin(done, s, p, p);
        } else {
          Extend(copy[..q], s, last, p);
          done := done + [s[p]];
          p, left := p + 1, left - 1;
        }
      }
      ScanEnd(s, src, tgt, rests, counts, p);
      Rejoin(copy[..q], s, last, p);
      Close(copy, q, last, s, rests[0]);
    }

    // The skipped bytes, then the target.
    method Flush(copy: array<byte>, q: nat, last: nat, p: nat, tgt: Text, ghost s: str, ghost done: str)
      returns (end: nat)
      requires Valid() && data != null && copy != data && AgreeFrom(data[..], s, 0) && |s| == used && last <= p <= used
      requires q <= copy.Length && done == copy[..q] + s[last..p] + tgt && |done| < copy.Length
      modifies copy
      ensures end == |done| && copy[..end] == done
    {
      AgreeSlice(data[..], s, last, p - last);
      Copy(copy, q, data[last..p]);
      assert copy[..q + (p - last)] + tgt == done;
      Copy(copy, q + (p - last), tgt);
      end := q + (p - last) + |tgt|;
    }

    // The bytes after the last target, then the terminator.
    method Close(copy: array<byte>, q: nat, last: nat, ghost s: str, ghost goal: str)
      requires Valid() && data != null && copy != data && AgreeFrom(data[..], s, 0) && |s| == used && last <= used
      requires q <= copy.Length && goal == copy[..q] + s[last..] && |goal| < copy.Length
      modifies copy
      ensures copy[..|goal|] == goal && copy[|goal|] == 0
    {
      AgreeSlice(data[..], s, last, used - last);
      assert |goal| == q + (used - last);
      CopyString(copy, q, data[last..used]);
    }

    /**
     Leftmost, non-overlapping replacement, whichever of the three paths is taken. An empty source or
     target leaves the string alone.
     */
    method Replace(src: Text, tgt: Text)
      requires Valid()
      modifies this`data, this`used, data
      ensures Valid() && (data == old(data) || (data != null && fresh(data)))
      ensures Contents() ==
              if src == [] || tgt == [] then old(Contents()) else Replaced(old(Contents()), src, tgt)
    {
      if src == [] || tgt == [] || data == null { return; }
      if |src| == |tgt| {
        ReplaceInPlace(src, tgt);
      } else {
        ReplaceInCopy(src, tgt);
      }
    }

    // Zeroes trailing white space. The scan stops at a byte to keep; over white space only it would go on
    // before the start of the buffer, and false is returned in the place of what happens then.
    method TrimRight() returns (inside: bool)
      requires Valid()
      modifies this`used, data
      ensures inside <==> old(Contents()) == [] || !AllSpace(old(Contents()))
      ensures inside ==> Valid() && Contents() == TrimmedRight(old(Contents()))
    {
      if used == 0 || data == null { return true; }
      ghost var s := Contents();
      var i := used - 1;
      var found: nat := 0;
      assert s[..i + 1] == s;
      while data[i] != 0
        invariant 0 <= i < used == |s| && i + 1 + found == used
        invariant data[..i + 1] == s[..i + 1] && AllSpace(s[i + 1..])
        invariant found > 0 ==> data[i + 1] == 0
        invariant found == 0 ==> data[used] == 0
        invariant TrimmedRight(s[..i + 1]) == TrimmedRight(s)
        decreases i
      {
        assert data[i] == s[i];
        if !IsSpace(data[i]) { break; }
        assert s[i..] == [s[i]] + s[i + 1..];
        if i == 0 { return false; }
        assert s[..i + 1][..i] == s[..i];
        data[i] := 0;
        found := found + 1;
        i := i - 1;
      }
      assert !IsSpace(s[i]);
      if found != 0 { used := used - found; }
      assert data[..used] == s[..used];
      inside := true;
    }

    method TrimLeft()
      requires Valid()
      modifies this`used, data
      ensures Valid() && Contents() == TrimmedLeft(old(Contents()))
    {
      if data == null || used == 0 { return; }
      ghost var s := Contents();
      var found: nat := 0;
      assert s[0..] == s;
      while data[found] != 0
        invariant found <= used
        invariant TrimmedLeft(s[found..]) == TrimmedLeft(s)
        decreases used - found
      {
        if !IsSpace(data[found]) { break; }
        assert s[found..][1..] == s[found + 1..];
        found := found + 1;
      }
      assert found == used || !IsSpace(s[found..][0]);
      if found != 0 {
        used := used - found;
        if used == 0 {
          data[0] := 0;
          return;
        }
        Copy(data, 0, data[found..found + used]);
        data[used] := 0;
      }
      assert data[..used] == s[found..];
    }

    method Trim()
      requires Valid()
      modifies this`used, data
      ensures Valid() && Contents() == Trimmed(old(Contents()))
    {
      TrimLeft();
      assert Contents() == [] || !IsSpace(Contents()[0]) by {
        var k := TrimmedLeftCuts(old(Contents()));
      }
      var inside := TrimRight();
    }

    method Split(sep: byte) returns (tokens: seq<str>)
      requires Valid() && sep != 0
      ensures tokens == Tokens(Contents(), sep)
    {
      tokens := [];
      if data == null { return; }
      ghost var s := Contents();
      var one: str := [];
      var p: nat := 0;
      assert s[0..] == s && [] + Scan(s, sep, []) == Scan(s, sep, []);
      while data[p] != 0
        invariant p <= used
        invariant tokens + Scan(s[p..], sep, one) == Tokens(s, sep)
        decreases used - p
      {
        assert s[p..][1..] == s[p + 1..];
        if data[p] == sep {
          tokens := tokens + [one];
          one := [];
        } else {
          one := one + [data[p]];
        }
        p := p + 1;
      }
      assert s[p..] == [];
      if one != [] { tokens := tokens + [one]; }
    }
  }
}
