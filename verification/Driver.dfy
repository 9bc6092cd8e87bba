/** The whole-file loops of src/driver.rs over a handle whose transfers may be short. */
module Driver {
  import opened Base

  const BUFFER_SIZE := 64 * 1024

  function Zeros(n: nat): seq<bv8> {
    seq(n, _ => 0)
  }

  /** The contents after `data` is written at `position`, a gap reading as zeros. */
  function Overwrite(contents: seq<bv8>, position: nat, data: seq<bv8>): seq<bv8> {
    var padded := if position <= |contents| then contents else contents + Zeros(position - |contents|);
    var end := position + |data|;
    padded[..position] + data + (if end <= |padded| then padded[end..] else [])
  }

  /** One call on a handle and what it replied. */
  datatype Call =
    | OpenCall(reply: Outcome)
    | ReadCall(capacity: nat, count: Result<nat>)
    | WriteCall(requested: nat, count: Result<nat>)
    | CloseCall(reply: Outcome)

  /** The call did not fail and its count is one the caller can act on. */
  predicate Succeeded(call: Call) {
    match call
    case OpenCall(reply) => reply.Pass?
    case ReadCall(capacity, count) => count.Ok? && count.value <= capacity
    case WriteCall(requested, count) => count.Ok? && 0 < count.value <= requested
    case CloseCall(reply) => reply.Pass?
  }

  predicate AllSucceeded(calls: seq<Call>) {
    forall k | 0 <= k < |calls| :: Succeeded(calls[k])
  }

  /** How many bytes the reads among the calls reported. */
  function BytesRead(calls: seq<Call>): nat {
    if calls == [] then 0 else
      var last := calls[|calls| - 1];
      BytesRead(calls[..|calls| - 1]) + (if last.ReadCall? && last.count.Ok? then last.count.value else 0)
  }

  lemma BytesReadExtends(calls: seq<Call>, call: Call)
    ensures BytesRead(calls + [call])
      == BytesRead(calls) + (if call.ReadCall? && call.count.Ok? then call.count.value else 0)
  {
    assert (calls + [call])[..|calls|] == calls;
  }

  /** An open file. Every call may fail, transfer fewer bytes than asked, or report a
      nonsensical count; each choice is left open, so what is proved holds of every schedule.
      A faithful handle never fails and always makes progress; an honest one may fail, but
      reports zero bytes read only at the end of the file. */
  class FileHandle {
    const faithful: bool
    const honest: bool
    var contents: seq<bv8>
    ghost var calls: seq<Call>

    constructor (faithful: bool, honest: bool)
      ensures this.faithful == faithful && this.honest == honest && contents == [] && calls == []
    {
      this.faithful, this.honest, contents, calls := faithful, honest, [], [];
    }

    /** `open(path, "w")`: truncates when it succeeds. */
    method OpenTruncated() returns (r: Outcome)
      modifies this
      ensures calls == old(calls) + [OpenCall(r)]
      ensures contents == if r.Pass? then [] else old(contents)
      ensures faithful ==> r.Pass?
    {
      var fails: bool := *;
      r := if fails && !faithful then Fail else Pass;
      if r.Pass? { contents := []; }
      calls := calls + [OpenCall(r)];
    }

    /** `open(path, "r")`: changes nothing. */
    method OpenForReading() returns (r: Outcome)
      modifies this`calls
      ensures calls == old(calls) + [OpenCall(r)]
      ensures faithful ==> r.Pass?
    {
      var fails: bool := *;
      r := if fails && !faithful then Fail else Pass;
      calls := calls + [OpenCall(r)];
    }

    /** Stores some prefix of the buffer; a credible count is the length of that prefix. */
    method Write(buffer: seq<bv8>, position: nat) returns (r: Result<nat>)
      modifies this
      ensures calls == old(calls) + [WriteCall(|buffer|, r)]
      ensures exists n | 0 <= n <= |buffer| ::
        && contents == Overwrite(old(contents), position, buffer[..n])
        && (r.Ok? && r.value <= |buffer| ==> n == r.value)
      ensures faithful && buffer != [] ==> r.Ok? && 0 < r.value <= |buffer|
    {
      var count: nat, fails: bool := *, *;
      if faithful {
        count := if count == 0 then 1 else count;
        count := if count > |buffer| then |buffer| else count;
        fails := false;
      }
      var stored := if count <= |buffer| then count else |buffer|;
      contents := Overwrite(contents, position, buffer[..stored]);
      r := if fails then Err else Ok(count);
      calls := calls + [WriteCall(|buffer|, r)];
    }

    /** Fills the front of the buffer; a credible count is backed by that many bytes of the file. */
    method Read(capacity: nat, position: nat) returns (r: Result<nat>, buffer: seq<bv8>)
      modifies this`calls
      ensures calls == old(calls) + [ReadCall(capacity, r)]
      ensures |buffer| == capacity
      ensures r.Ok? && 0 < r.value <= capacity ==>
        && position + r.value <= |contents|
        && buffer[..r.value] == contents[position..position + r.value]
      ensures faithful ==> r.Ok? && r.value <= capacity
      ensures (faithful || honest) && capacity > 0 && position < |contents| ==> r != Ok(0)
    {
      var available := if position < |contents| then |contents| - position else 0;
      var count: nat, fails: bool := *, *;
      if faithful || honest {
        count := if count == 0 then 1 else count;
      }
      if faithful || count <= capacity {
        count := if count > available then available else count;
        count := if count > capacity then capacity else count;
        buffer := (if count == 0 then [] else contents[position..position + count]) + Zeros(capacity - count);
      } else {
        buffer := Zeros(capacity);
      }
      r := if fails && !faithful then Err else Ok(count);
      calls := calls + [ReadCall(capacity, r)];
    }

    method Close() returns (r: Outcome)
      modifies this`calls
      ensures calls == old(calls) + [CloseCall(r)]
      ensures faithful ==> r.Pass?
    {
      var fails: bool := *;
      r := if fails && !faithful then Fail else Pass;
      calls := calls + [CloseCall(r)];
    }
  }

  /** Appending at the end of a prefix of the data gives a longer prefix. */
  lemma OverwriteExtends(data: seq<bv8>, written: nat, n: nat)
    requires written + n <= |data|
    ensures Overwrite(data[..written], written, data[written..][..n]) == data[..written + n]
  {
  }

  /** What one whole-file operation called: the open alone if that failed, and otherwise the
      open, the transfers in `middle`, and the close. */
  predicate Session(calls: seq<Call>, middle: seq<Call>) {
    || (calls == [OpenCall(Fail)] && middle == [])
    || exists closed :: calls == [OpenCall(Pass)] + middle + [CloseCall(closed)]
  }

  lemma SessionSucceeds(calls: seq<Call>, middle: seq<Call>)
    requires Session(calls, middle)
    ensures AllSucceeded(calls) <==>
      calls[0] == OpenCall(Pass) && AllSucceeded(middle) && calls[|calls| - 1] == CloseCall(Pass)
  {
    if calls != [OpenCall(Fail)] {
      var closed :| calls == [OpenCall(Pass)] + middle + [CloseCall(closed)];
      assert forall k | 0 <= k < |middle| :: middle[k] == calls[k + 1];
    }
  }

  /** The default `write_file`. It succeeds exactly when every call it made succeeded, the
      close included, and then the file holds exactly the data; a failed open leaves the file
      alone and any other failure leaves a prefix of the data. A faithful handle succeeds
      however short its writes are. */
  method WriteFile(handle: FileHandle, data: seq<bv8>) returns (r: Outcome, ghost middle: seq<Call>)
    modifies handle
    ensures old(handle.calls) <= handle.calls
    ensures Session(handle.calls[|old(handle.calls)|..], middle)
    ensures forall k | 0 <= k < |middle| :: middle[k].WriteCall?
    ensures r.Pass? <==> AllSucceeded(handle.calls[|old(handle.calls)|..])
    ensures r.Pass? ==> handle.contents == data
    ensures r.Fail? ==>
      if handle.calls == old(handle.calls) + [OpenCall(Fail)] then handle.contents == old(handle.contents)
      else handle.contents <= data
    ensures handle.faithful ==> r.Pass?
  {
    ghost var before := handle.calls;
    middle := [];
    r := handle.OpenTruncated();
    if r.Fail? {
      assert handle.calls[|before|..] == [OpenCall(Fail)];
      SessionSucceeds([OpenCall(Fail)], []);
      return;
    }
    var operation := Pass;
    var written := 0;
    while written < |data| && operation.Pass?
      invariant written <= |data| && handle.contents <= data
      invariant operation.Pass? ==> handle.contents == data[..written]
      invariant handle.faithful ==> operation.Pass?
      invariant handle.calls == before + [OpenCall(Pass)] + middle
      invariant forall k | 0 <= k < |middle| :: middle[k].WriteCall?
      invariant operation.Pass? <==> AllSucceeded(middle)
      decreases |data| - written, operation.Pass?
    {
      var contents := handle.contents;
      var response := handle.Write(data[written..], written);
      middle := middle + [WriteCall(|data| - written, response)];
      ghost var n :| 0 <= n <= |data| - written
        && handle.contents == Overwrite(contents, written, data[written..][..n])
        && (response.Ok? && response.value <= |data| - written ==> n == response.value);
      OverwriteExtends(data, written, n);
      if response.Err? || response.value == 0 || response.value > |data| - written {
        assert !Succeeded(middle[|middle| - 1]);
        operation := Fail;
      } else {
        written := written + response.value;
      }
    }
    assert data[..|data|] == data;
    var closed := handle.Close();
    ghost var calls := handle.calls[|before|..];
    assert calls == [OpenCall(Pass)] + middle + [CloseCall(closed)];
    SessionSucceeds(calls, middle);
    r := if closed.Fail? then Fail else operation;
  }

  /** `read_file`. It succeeds exactly when every call it made succeeded, the last read having
      reported zero, and returns as many bytes of the front of the file as the reads reported.
      From a handle that reports zero only at the end of the file that is the whole file, and
      a faithful handle always succeeds. The file is closed whatever the reads did. */
  method ReadFile(handle: FileHandle) returns (r: Result<seq<bv8>>, ghost middle: seq<Call>)
    modifies handle`calls
    ensures old(handle.calls) <= handle.calls
    ensures Session(handle.calls[|old(handle.calls)|..], middle)
    ensures forall k | 0 <= k < |middle| :: middle[k].ReadCall?
    ensures r.Ok? <==> AllSucceeded(handle.calls[|old(handle.calls)|..])
    ensures r.Ok? ==> middle != [] && middle[|middle| - 1].count == Ok(0)
    ensures r.Ok? ==> r.value <= handle.contents && |r.value| == BytesRead(middle)
    ensures r.Ok? && handle.honest ==> r.value == handle.contents
    ensures handle.faithful ==> r == Ok(handle.contents)
  {
    ghost var before := handle.calls;
    middle := [];
    var access := handle.OpenForReading();
    if access.Fail? {
      assert handle.calls[|before|..] == [OpenCall(Fail)];
      SessionSucceeds([OpenCall(Fail)], []);
      return Err, [];
    }
    var result: seq<bv8> := [];
    var position := 0;
    var operation, done := Pass, false;
    while operation.Pass? && !done
      invariant position <= |handle.contents| && result == handle.contents[..position]
      invariant handle.faithful ==> operation.Pass?
      invariant done && (handle.faithful || handle.honest) ==> position == |handle.contents|
      invariant handle.calls == before + [OpenCall(Pass)] + middle
      invariant forall k | 0 <= k < |middle| :: middle[k].ReadCall?
      invariant operation.Pass? <==> AllSucceeded(middle)
      invariant done ==> middle != [] && middle[|middle| - 1].count == Ok(0)
      invariant operation.Pass? ==> BytesRead(middle) == position
      decreases |handle.contents| - position, operation.Pass?, !done
    {
      var response, buffer := handle.Read(BUFFER_SIZE, position);
      BytesReadExtends(middle, ReadCall(BUFFER_SIZE, response));
      middle := middle + [ReadCall(BUFFER_SIZE, response)];
      if response.Err? || response.value > |buffer| {
        assert !Succeeded(middle[|middle| - 1]);
        operation := Fail;
      } else if response.value == 0 {
        done := true;
      } else {
        result := result + buffer[..response.value];
        position := position + response.value;
      }
    }
    assert position == |handle.contents| ==> result == handle.contents;
    var closed := handle.Close();
    ghost var calls := handle.calls[|before|..];
    assert calls == [OpenCall(Pass)] + middle + [CloseCall(closed)];
    SessionSucceeds(calls, middle);
    r := if closed.Fail? || operation.Fail? then Err else Ok(result);
  }

  /** Writing a file and reading it back, on any handle and under every schedule: what a
      successful write and read return is a prefix of the data, all of it if zero is reported
      only at the end of the file; and a faithful handle always returns the data. */
  method WriteThenRead(handle: FileHandle, data: seq<bv8>) returns (written: Outcome, r: Result<seq<bv8>>)
    modifies handle
    ensures written.Pass? && r.Ok? ==> r.value <= data
    ensures written.Pass? && r.Ok? && handle.honest ==> r.value == data
    ensures handle.faithful ==> written.Pass? && r == Ok(data)
  {
    ghost var calls;
    written, calls := WriteFile(handle, data);
    r, calls := ReadFile(handle);
  }
}
