/** The aggregate input budget of one continuity command. */
module Budget {
  import opened Wrappers
  import opened Bytes

  const MAX_COMMAND_INPUT_BYTES := 64 * 1024 * 1024

  datatype InputError = BudgetExceeded | CannotOpen | CannotInspect | NotRegular | TooLarge | CannotRead

  /**
   A path as the reader meets it. The metadata is taken first; by the time of the read the
   file may hold other content.
   */
  datatype File = File(
    opens: bool,
    inspects: bool,
    regular: bool,
    metadataLength: u64,
    readable: bool,
    content: seq<byte>)

  function Min(a: int, b: int): int {
    if a <= b then a else b
  }

  /** `file.take(limit).read_to_end(..)`. */
  function Take(content: seq<byte>, limit: nat): seq<byte> {
    if |content| <= limit then content else content[..limit]
  }

  /** When a read succeeds, in terms of the file alone. */
  predicate Admissible(remaining: nat, file: File, maximum: nat) {
    && remaining > 0
    && file.opens && file.inspects && file.regular && file.readable
    && file.metadataLength <= maximum && file.metadataLength <= remaining
    && |file.content| <= maximum && |file.content| <= remaining
  }

  class CommandInputBudget {
    var remaining: nat

    constructor ()
      ensures remaining == MAX_COMMAND_INPUT_BYTES
    {
      remaining := MAX_COMMAND_INPUT_BYTES;
    }

    /** Returns the whole file as read, never a truncation, and charges exactly its length. */
    method ReadRegularFile(file: File, maximum: u64) returns (r: Result<seq<byte>, InputError>)
      modifies this
      ensures r.Success? <==> Admissible(old(remaining), file, maximum)
      ensures r.Success? ==> r.value == file.content && remaining == old(remaining) - |file.content|
      ensures r.Failure? ==> remaining == old(remaining)
      ensures r == Failure(TooLarge) ==> file.metadataLength > maximum || |file.content| > maximum
      ensures r == Failure(BudgetExceeded) ==>
        old(remaining) == 0 || file.metadataLength > old(remaining) || |file.content| > old(remaining)
    {
      if remaining == 0 {
        return Failure(BudgetExceeded);
      }
      if !file.opens {
        return Failure(CannotOpen);
      }
      if !file.inspects {
        return Failure(CannotInspect);
      }
      if !file.regular {
        return Failure(NotRegular);
      }
      if file.metadataLength > maximum {
        return Failure(TooLarge);
      }
      if file.metadataLength > remaining {
        return Failure(BudgetExceeded);
      }
      var readLimit := Min(maximum, remaining);
      if !file.readable {
        return Failure(CannotRead);
      }
      var bytes := Take(file.content, readLimit + 1);
      if |bytes| > maximum {
        return Failure(TooLarge);
      }
      if |bytes| > remaining {
        return Failure(BudgetExceeded);
      }
      remaining := remaining - |bytes|;
      r := Success(bytes);
    }
  }

  // ----- whole commands -----

  /** The budget left after reading these files in order, failed reads included. */
  function RemainingAfter(files: seq<(File, u64)>): nat {
    if files == [] then MAX_COMMAND_INPUT_BYTES
    else
      var before := RemainingAfter(files[..|files| - 1]);
      var (file, maximum) := files[|files| - 1];
      if Admissible(before, file, maximum) then before - |file.content| else before
  }

  /** The files whose reads succeeded, in order. */
  function Accepted(files: seq<(File, u64)>): seq<seq<byte>> {
    if files == [] then []
    else
      var (file, maximum) := files[|files| - 1];
      var before := Accepted(files[..|files| - 1]);
      if Admissible(RemainingAfter(files[..|files| - 1]), file, maximum) then before + [file.content] else before
  }

  function TotalBytes(inputs: seq<seq<byte>>): nat {
    if inputs == [] then 0 else TotalBytes(inputs[..|inputs| - 1]) + |inputs[|inputs| - 1]|
  }

  /** Bytes handed out plus bytes left is 64 MiB, after any sequence of reads. */
  lemma {:induction false} Conservation(files: seq<(File, u64)>)
    ensures TotalBytes(Accepted(files)) + RemainingAfter(files) == MAX_COMMAND_INPUT_BYTES
  {
    if files != [] {
      var front := files[..|files| - 1];
      Conservation(front);
      var (file, maximum) := files[|files| - 1];
      if Admissible(RemainingAfter(front), file, maximum) {
        assert (Accepted(front) + [file.content])[..|Accepted(front)|] == Accepted(front);
      }
    }
  }

  /** One command's reads through one budget. */
  method ReadAll(files: seq<(File, u64)>) returns (inputs: seq<seq<byte>>, remaining: nat)
    ensures inputs == Accepted(files) && remaining == RemainingAfter(files)
    ensures TotalBytes(inputs) + remaining == MAX_COMMAND_INPUT_BYTES
  {
    var budget := new CommandInputBudget();
    inputs := [];
    for i := 0 to |files|
      invariant fresh(budget)
      invariant inputs == Accepted(files[..i]) && budget.remaining == RemainingAfter(files[..i])
    {
      assert files[..i + 1][..i] == files[..i];
      var r := budget.ReadRegularFile(files[i].0, files[i].1);
      if r.Success? {
        inputs := inputs + [r.value];
      }
    }
    assert files[..|files|] == files;
    Conservation(files);
    remaining := budget.remaining;
  }
}
