/** Ring_Buffer_t and the operations of ringBuffer.c: a 64-byte storage array,
    a write index `head` and a read index `tail`, both below 64. */
module Ring {
  import opened CString
  import opened RingSpec

  /** The uint16_t `strSize` of findDataInBuffer: strlen truncated to 16 bits. */
  function StrSize(pattern: seq<Byte>): (r: U16)
    ensures r <= |pattern|
    ensures |pattern| < 0x1_0000 ==> r == |pattern|
  {
    |pattern| % 0x1_0000
  }

  /** Whether findDataInBuffer succeeds on logical contents `c`: the pattern is
      at most 64 bytes long (after truncation), the ring is not empty, and the
      scan completes it. */
  predicate FindSucceeds(c: seq<Byte>, pattern: seq<Byte>)
    ensures FindSucceeds(c, pattern) ==> 0 < StrSize(pattern) <= |c|
  {
    0 < StrSize(pattern) <= N && c != [] && Scan(c, pattern[..StrSize(pattern)], 0, 0).Some?
  }

  class RingBuffer {
    const storage: array<Byte>
    var tail: U16
    var head: U16

    /** The bytes written and not yet read, oldest first. */
    ghost var Contents: seq<Byte>

    /** The struct invariant: the indices lie inside the 64-byte array, and
        Contents is what the storage holds between them. */
    ghost predicate Valid()
      reads this, storage
    {
      storage.Length == N && head < N && tail < N && Contents == Logical(storage[..], tail, head)
    }

    /** A zero-initialised struct, as static storage holds it before resetBuffer. */
    constructor ()
      ensures Valid() && fresh(storage)
      ensures head == 0 && tail == 0 && storage[..] == Zeros(N) && Contents == []
    {
      storage := new Byte[N](_ => 0);
      tail, head := 0, 0;
      Contents := [];
    }

    /** resetBuffer: both indices to 0 and every storage byte to 0. */
    method Reset()
      requires storage.Length == N
      modifies this, storage
      ensures Valid() && head == 0 && tail == 0
      ensures storage[..] == Zeros(N)
      ensures Contents == []
    {
      head := 0;
      tail := 0;
      forall i | 0 <= i < storage.Length {
        storage[i] := 0;
      }
      Contents := [];
    }

    /** bufferIsEmpty: the indices coincide exactly when nothing is held. */
    function IsEmpty(): (r: bool)
      reads this, storage
      ensures r <==> head == tail
      ensures Valid() ==> (r <==> Contents == [])
    {
      head == tail
    }

    /** bufferIsFull: one step of `head` reaches `tail` exactly when 63 bytes are held. */
    function IsFull(): (r: bool)
      reads this, storage
      ensures r <==> (head + 1) % N == tail
      ensures Valid() ==> (r <==> |Contents| == Capacity)
    {
      (head + 1) % N == tail
    }

    /** writeBufferData: overwrite-oldest. */
    method Write(data: Byte)
      requires Valid()
      modifies this, storage
      ensures Valid()
      ensures storage[..] == old(storage[..])[old(head) := data]
      ensures head == (old(head) + 1) % N
      ensures tail == if old(IsFull()) then (old(tail) + 1) % N else old(tail)
      ensures Contents == WriteContents(old(Contents), data)
      ensures |Contents| == Min(|old(Contents)| + 1, Capacity)
    {
      WriteEffect(storage[..], tail, head, data);
      LengthFormula(storage[..], tail, head);
      if IsFull() {
        tail := (tail + 1) % N;
      }
      storage[head] := data;
      head := (head + 1) % N;
      Contents := WriteContents(Contents, data);
    }

    /** readBufferData: the oldest byte, or the sentinel 0 when empty. */
    method Read() returns (data: Byte)
      requires Valid()
      modifies this`tail, this`Contents
      ensures Valid()
      ensures old(Contents) == [] ==> data == 0 && tail == old(tail) && Contents == []
      ensures old(Contents) != [] ==> data == old(Contents)[0] && tail == (old(tail) + 1) % N
                                      && Contents == old(Contents)[1..]
    {
      data := 0;
      if !IsEmpty() {
        Advance(storage[..], tail, head, 1);
        data := storage[tail];
        tail := (tail + 1) % N;
        Contents := Contents[1..];
      }
    }

    /** findDataInBuffer: scan the logical contents for `pattern`; on success
        move `tail` forward by the pattern length, counted from the old `tail`. */
    method Find(pattern: seq<Byte>) returns (found: bool)
      requires Valid()
      requires |pattern| > 0
      modifies this`tail, this`Contents
      ensures Valid()
      ensures found == FindSucceeds(old(Contents), pattern)
      ensures found ==> tail == (old(tail) + StrSize(pattern)) % N
                        && Contents == old(Contents)[StrSize(pattern)..]
      ensures !found ==> tail == old(tail) && Contents == old(Contents)
    {
      var strIndex: nat := 0;
      var strSize := StrSize(pattern);
      var length: U16 := if head >= tail then head - tail else N - tail + head;
      ghost var c := Contents;
      LengthFormula(storage[..], tail, head);
      if strSize > N || IsEmpty() {
        return false;
      }
      ghost var q := pattern[..strSize];
      ghost var result := if strSize > 0 then Scan(c, q, 0, 0) else None;
      assert FindSucceeds(c, pattern) == result.Some?;
      // The loop only reads; the success exit breaks out, and the tail update
      // and `return true` of findDataInBuffer follow directly after it.
      found := false;
      var i: nat := 0;
      while i < length
        invariant i <= length == |c| && strIndex <= i && strIndex < |pattern|
        invariant strSize == 0 ==> |pattern| >= 0x1_0000
        invariant strSize > 0 ==> strIndex < strSize && Scan(c, q, i, strIndex) == result
        modifies {}
      {
        var currentIndex := (tail + i) % N;
        assert storage[currentIndex] == c[i];
        assert strSize > 0 ==> pattern[strIndex] == q[strIndex];
        if storage[currentIndex] == pattern[strIndex] {
          strIndex := strIndex + 1;
          if strIndex == strSize {
            found := true;
            break;
          }
        } else {
          strIndex := 0;
        }
        i := i + 1;
      }
      if found {
        Advance(storage[..], tail, head, strSize);
        tail := (tail + strSize) % N;
        Contents := Contents[strSize..];
      }
    }

    /** copyBufferData: zero `fieldSize` bytes of `copyField`, then copy the
        storage C string from the leftmost occurrence of `pattern`, up to the
        first CR or LF and at most fieldSize - 1 bytes. */
    method CopyBufferData(copyField: array<Byte>, fieldSize: Byte, pattern: seq<Byte>)
      requires storage.Length == N
      requires fieldSize <= copyField.Length && copyField != storage
      requires head != tail ==> Nul in storage[..]
      modifies copyField
      ensures forall j :: fieldSize <= j < copyField.Length ==> copyField[j] == old(copyField[j])
      ensures head == tail ==> forall j :: 0 <= j < fieldSize ==> copyField[j] == 0
      ensures head != tail ==>
                var text := CStr(old(storage[..]));
                var at := StrStr(text, pattern);
                if at.None? then forall j :: 0 <= j < fieldSize ==> copyField[j] == 0
                else
                  var t := SpanFrom(text, at.value, {CR, LF}, if fieldSize == 0 then 0 else fieldSize - 1);
                  (fieldSize > 0 ==> t < fieldSize)
                  && forall j :: 0 <= j < fieldSize ==> copyField[j] == if j < t then text[at.value + j] else 0
    {
      forall i | 0 <= i < fieldSize {
        copyField[i] := 0;
      }
      if IsEmpty() {
        return;
      }
      ghost var s := storage[..];
      assert s == old(storage[..]);
      var text := CStr(storage[..]);
      var at := StrStr(text, pattern);
      if at.Some? {
        var ret := at.value;
        var retLen := |text| - ret;
        ghost var t := SpanFrom(text, ret, {CR, LF}, if fieldSize == 0 then 0 else fieldSize - 1);
        var i := 0;
        while i < retLen && i < fieldSize - 1
          invariant 0 <= i <= t
          invariant forall j :: 0 <= j < fieldSize ==> copyField[j] == if j < i then text[ret + j] else 0
          invariant forall j :: fieldSize <= j < copyField.Length ==> copyField[j] == old(copyField[j])
        {
          assert storage[ret + i] == s[ret + i] == text[ret + i] != Nul;
          copyField[i] := storage[ret + i];
          if storage[ret + i] == Nul || storage[ret + i] == CR || storage[ret + i] == LF {
            copyField[i] := Nul;
            assert i == t;
            break;
          }
          i := i + 1;
        }
        assert i == t;
      }
    }

    /** copyAfterPattern: copy the storage C string bytes that follow the
        leftmost occurrence of `start`, up to `finish` or the NUL and at most
        len - 1 bytes, then a NUL; only copyField[0] is written when absent. */
    method CopyAfterPattern(copyField: array<Byte>, start: seq<Byte>, finish: Byte, len: U16)
      requires storage.Length == N && Nul in storage[..]
      requires 0 < len <= copyField.Length && copyField != storage
      modifies copyField
      ensures var text := CStr(old(storage[..]));
              var at := StrStr(text, start);
              if at.None? then copyField[0] == Nul
                && forall j :: 1 <= j < copyField.Length ==> copyField[j] == old(copyField[j])
              else
                var from := at.value + |start|;
                var t := SpanFrom(text, from, {finish}, len - 1);
                (forall j :: 0 <= j < t ==> copyField[j] == text[from + j]) && copyField[t] == Nul
                && forall j :: t < j < copyField.Length ==> copyField[j] == old(copyField[j])
    {
      var tempIndex: U16 := 0;
      ghost var s := storage[..];
      var text := CStr(storage[..]);
      var at := StrStr(text, start);
      if at.Some? {
        var ret := at.value + |start|;
        ghost var t := SpanFrom(text, ret, {finish}, len - 1);
        var ch := storage[ret];
        while tempIndex < len - 1
          invariant tempIndex <= t && ret + tempIndex <= |text|
          invariant ch == s[ret + tempIndex]
          invariant forall j :: 0 <= j < tempIndex ==> copyField[j] == text[ret + j]
          invariant forall j :: tempIndex <= j < copyField.Length ==> copyField[j] == old(copyField[j])
        {
          if ch == finish || ch == Nul {
            assert ret + tempIndex < |text| ==> ch == text[ret + tempIndex];
            assert tempIndex == t;
            break;
          }
          assert ret + tempIndex < |text| && ch == text[ret + tempIndex];
          assert tempIndex < t;
          copyField[tempIndex] := ch;
          tempIndex := tempIndex + 1;
          ch := storage[ret + tempIndex];
        }
        assert tempIndex == t;
        copyField[tempIndex] := Nul;
      } else {
        copyField[0] := Nul;
      }
    }

    /** copyCircularBuffer: `count` successive reads into dest[0..count). */
    method CopyCircularBuffer(dest: array<Byte>, count: U16)
      requires Valid() && count <= dest.Length && dest != storage
      modifies this`tail, this`Contents, dest
      ensures Valid()
      ensures dest[..count] == Drain(old(Contents), count)
      ensures var n := Min(count, |old(Contents)|);
              Contents == old(Contents)[n..] && tail == (old(tail) + n) % N
      ensures forall j :: count <= j < dest.Length ==> dest[j] == old(dest[j])
    {
      ghost var c, t0 := Contents, tail;
      var i: U16 := 0;
      while i < count
        invariant i <= count && Valid()
        invariant Contents == c[Min(i, |c|)..]
        invariant tail == (t0 + Min(i, |c|)) % N
        invariant forall j :: 0 <= j < i ==> dest[j] == if j < |c| then c[j] else 0
        invariant forall j :: count <= j < dest.Length ==> dest[j] == old(dest[j])
      {
        var b := Read();
        if i < |c| {
          ModAdd(t0 + i, 1);
        }
        dest[i] := b;
        i := i + 1;
      }
      DrainAt(c, count, dest[..count]);
    }
  }
}
