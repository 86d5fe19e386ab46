/** Failure-compatible result type for the operations whose Python original
    raises (an unpacking ValueError, an IndexError, a ZeroDivisionError) instead of returning. */
module Results {

  /** Why a modelled operation stops where the Python original raises. */
  datatype Fault =
    | EmptyPool              // zip(*[]) of an empty pool cannot be unpacked into three lists
    | EmptyCandidates        // the energy prefix of length int(0.07*l) is empty
    | ThresholdOutOfRange    // sorted_eng_list[-int(l*percen)] is outside the list
    | LedgerIndexOutOfRange  // a ledger index does not address the current pool
    | ClassOutOfRange        // a predicted class is not a row of np.eye(K)
    | NoConfidentSample      // no energy lies below thre_a: the acc rate divides by zero
    | NoUnknownSample        // no energy lies above thre_w: the unk rate divides by zero
    | NothingLabelled        // label_cnt > 0 but no sample was picked: the selection rate divides by zero

  datatype Option<+T> = None | Some(value: T)

  datatype Result<+T> = Ok(value: T) | Fail(fault: Fault) {
    predicate IsFailure() {
      Fail?
    }

    function PropagateFailure<U>(): Result<U>
      requires Fail?
    {
      Fail(fault)
    }

    function Extract(): T
      requires Ok?
    {
      value
    }
  }
}
