/** The analysis layer over one decoded transaction: the `Tx` wrapper of `types/tx.go`
    and the methods it offers.

    The transaction is never changed by these methods, so it is a datatype and each Go
    method is a member of it. Every collaborator whose code is not part of this model is a
    total function parameter that yields a value or an error:
      - `getNonOPBytes`: a script's literal data pushes (`utils.GetNonOPBytes`);
      - `extractAddrs`: the addresses one output script pays to on the main network
        (the address list of `txscript.ExtractPkScriptAddrs`);
      - `getSatoshiEncodedData`: the length-prefixed payload decoder (`utils.GetSatoshiEncodedData`);
      - `getTx`: the transaction store (`DB.GetTx`). */
module Types {
  import opened Results
  import opened GoInts
  import Decimal

  type Bytes = seq<uint8>

  /** A 32-byte transaction or block identifier. */
  type Hash = s: seq<uint8> | |s| == 32 witness seq(32, _ => 0)

  /** A reference to one output of an earlier transaction. */
  datatype OutPoint = OutPoint(hash: Hash, index: uint32)

  datatype TxIn = TxIn(previousOutPoint: OutPoint, signatureScript: Bytes)

  datatype TxOut = TxOut(value: int64, pkScript: Bytes)

  /** The decoded transaction: ordered inputs and ordered outputs. */
  datatype MsgTx = MsgTx(txIn: seq<TxIn>, txOut: seq<TxOut>)

  /** An address an output script pays to, in its encoded form. */
  datatype Address = Address(encoded: string)

  /** The output value (in satoshis) that counts as dust: 0.00000001 BTC. */
  const DustValue: int64 := 1

  /** A decoded transaction and where it was found in the block archive. */
  datatype Tx = Tx(
    msgTx: MsgTx,
    datFileIdx: uint16,
    blockTimestamp: int64,
    blockIndexInDATFile: uint32,
    blockHash: Hash,
    indexInBlock: uint64)
  {
    /** The name of the archive file the transaction came from: `blk`, the index
        as five zero-padded decimal digits, `.dat`. */
    function DATFilename(): (name: string)
      ensures |name| == 12
      ensures name[..3] == "blk" && name[8..] == ".dat"
      ensures Decimal.AllDigits(name[3..8])
      ensures Decimal.DecimalValue(name[3..8]) == datFileIdx as nat
    {
      var digits := Decimal.ZeroPad(datFileIdx as nat, 5);
      Decimal.ZeroPadRoundTrip(datFileIdx as nat, 5);
      var name := "blk" + digits + ".dat";
      assert name[3..8] == digits;
      name
    }

    /** The non-opcode bytes of output `txoutIdx`. Where it succeeds, those bytes are
        exactly what that output adds to ConcatNonOPDataFromTxOuts, at its position;
        where it fails, the output adds nothing. */
    function GetNonOPDataFromTxOut(getNonOPBytes: Bytes -> Result<Bytes>, txoutIdx: nat): (r: Result<Bytes>)
      requires txoutIdx < |msgTx.txOut|
      ensures r.Success? ==>
        var outs := msgTx.txOut;
        NonOPData(outs, getNonOPBytes)
          == NonOPData(outs[..txoutIdx], getNonOPBytes) + r.value + NonOPData(outs[txoutIdx + 1..], getNonOPBytes)
      ensures r.Failure? ==>
        var outs := msgTx.txOut;
        NonOPData(outs, getNonOPBytes) == NonOPData(outs[..txoutIdx] + outs[txoutIdx + 1..], getNonOPBytes)
    {
      NonOPDataSplit(msgTx.txOut, getNonOPBytes, txoutIdx);
      NonOPDataSkipsFailure(msgTx.txOut, getNonOPBytes, txoutIdx);
      getNonOPBytes(msgTx.txOut[txoutIdx].pkScript)
    }

    /** Concatenates the non-opcode bytes of every output, in order, skipping every
        output whose extraction fails; it never returns an error. */
    method ConcatNonOPDataFromTxOuts(getNonOPBytes: Bytes -> Result<Bytes>) returns (r: Result<Bytes>)
      ensures r == Success(NonOPData(msgTx.txOut, getNonOPBytes))
    {
      var outs := msgTx.txOut;
      var allBytes: Bytes := [];
      for i := 0 to |outs|
        invariant allBytes == NonOPData(outs[..i], getNonOPBytes)
      {
        var bs := getNonOPBytes(outs[i].pkScript);
        NonOPDataSnoc(outs[..i], outs[i], getNonOPBytes);
        assert outs[..i + 1] == outs[..i] + [outs[i]];
        if bs.Failure? {
          continue;
        }
        allBytes := allBytes + bs.value;
      }
      assert outs[..|outs|] == outs;
      return Success(allBytes);
    }

    /** Decodes the payload carried by the concatenated output data; the concatenation
        stage contributes no error of its own. */
    method ConcatSatoshiDataFromTxOuts(
      getNonOPBytes: Bytes -> Result<Bytes>,
      getSatoshiEncodedData: Bytes -> Result<Bytes>)
      returns (r: Result<Bytes>)
      ensures r == getSatoshiEncodedData(NonOPData(msgTx.txOut, getNonOPBytes))
    {
      var data := ConcatNonOPDataFromTxOuts(getNonOPBytes);
      if data.Failure? {
        // ConcatNonOPDataFromTxOuts never reports an error: this branch is dead.
        assert false;
      }
      return getSatoshiEncodedData(data.value);
    }

    /** Concatenates every input's signature script verbatim, in order; it never
        returns an error. */
    method ConcatTxInScripts() returns (r: Result<Bytes>)
      ensures r == Success(Flatten(SignatureScripts(msgTx.txIn)))
    {
      var ins := msgTx.txIn;
      var allBytes: Bytes := [];
      for i := 0 to |ins|
        invariant allBytes == Flatten(SignatureScripts(ins[..i]))
      {
        assert SignatureScripts(ins[..i + 1]) == SignatureScripts(ins[..i]) + [ins[i].signatureScript];
        FlattenSnoc(SignatureScripts(ins[..i]), ins[i].signatureScript);
        allBytes := allBytes + ins[i].signatureScript;
      }
      assert ins[..|ins|] == ins;
      return Success(allBytes);
    }

    /** The addresses output `txoutIdx` pays to. An error here makes
        GetTxOutAddresses fail; when GetTxOutAddresses succeeds, its entry
        `txoutIdx` is this list. */
    function GetTxOutAddress(extractAddrs: Bytes -> Result<seq<Address>>, txoutIdx: nat): (r: Result<seq<Address>>)
      requires txoutIdx < |msgTx.txOut|
      ensures r.Failure? ==> AddressesOf(msgTx.txOut, extractAddrs).Failure?
      ensures AddressesOf(msgTx.txOut, extractAddrs).Success? ==>
        |AddressesOf(msgTx.txOut, extractAddrs).value| == |msgTx.txOut| &&
        r.Success? && AddressesOf(msgTx.txOut, extractAddrs).value[txoutIdx] == r.value
    {
      AddressesOfCharacterized(msgTx.txOut, extractAddrs);
      extractAddrs(msgTx.txOut[txoutIdx].pkScript)
    }

    /** The address lists of all outputs, in order; the first output whose addresses
        cannot be extracted aborts the whole call with its error. */
    method GetTxOutAddresses(extractAddrs: Bytes -> Result<seq<Address>>) returns (r: Result<seq<seq<Address>>>)
      ensures r == AddressesOf(msgTx.txOut, extractAddrs)
    {
      var outs := msgTx.txOut;
      var addrs := new seq<Address>[|outs|];
      for i := 0 to |outs|
        invariant AddressesOf(outs[..i], extractAddrs) == Success(addrs[..i])
      {
        var addresses := extractAddrs(outs[i].pkScript);
        assert outs[..i + 1][..i] == outs[..i];
        if addresses.Failure? {
          assert AddressesOf(outs[..i + 1], extractAddrs) == Failure(addresses.error);
          AddressesOfFailurePersists(outs, extractAddrs, i + 1);
          return Failure(addresses.error);
        }
        addrs[i] := addresses.value;
        assert addrs[..i + 1] == addrs[..i] + [addresses.value];
      }
      assert outs[..|outs|] == outs;
      assert addrs[..] == addrs[..|outs|];
      return Success(addrs[..]);
    }

    /** The index of the first output of greatest value, or 0 when no output has a
        positive value (the running maximum starts at zero and only a strictly
        greater value replaces it). */
    method FindMaxValueTxOut() returns (maxValueIdx: nat)
      ensures IsMaxValueIndex(msgTx.txOut, maxValueIdx)
    {
      var outs := msgTx.txOut;
      var maxValue: int64 := 0;
      maxValueIdx := 0;
      for txoutIdx := 0 to |outs|
        invariant maxValue >= 0
        invariant forall j :: 0 <= j < txoutIdx ==> outs[j].value <= maxValue
        invariant maxValue == 0 ==> maxValueIdx == 0
        invariant maxValue > 0 ==>
          maxValueIdx < txoutIdx && outs[maxValueIdx].value == maxValue &&
          forall k :: 0 <= k < maxValueIdx ==> outs[k].value < maxValue
      {
        if outs[txoutIdx].value > maxValue {
          maxValue := outs[txoutIdx].value;
          maxValueIdx := txoutIdx;
        }
      }
    }

    /** True when every output but exactly one carries the dust value: the number of
        dust outputs is positive and one less than the number of outputs. */
    method HasSuspiciousOutputValues() returns (suspicious: bool)
      ensures suspicious == (DustCount(msgTx.txOut) > 0 && DustCount(msgTx.txOut) == |msgTx.txOut| - 1)
      ensures suspicious <==> AllButOneDust(msgTx.txOut)
    {
      var outs := msgTx.txOut;
      var numTinyValues := 0;
      for i := 0 to |outs|
        invariant numTinyValues == DustCount(outs[..i])
      {
        assert outs[..i + 1][..i] == outs[..i];
        if outs[i].value == DustValue {
          numTinyValues := numTinyValues + 1;
        }
      }
      assert outs[..|outs|] == outs;
      SuspiciousIffAllButOneDust(outs);
      if numTinyValues > 0 && numTinyValues == |outs| - 1 {
        return true;
      }
      return false;
    }

    /** The fee in satoshis: the values of the outputs the inputs spend, minus the
        values of the own outputs, in wrapping int64 arithmetic; the first input whose
        previous output cannot be resolved aborts the call with its error. */
    method Fee(getTx: Hash -> Result<Tx>) returns (r: Result<int64>)
      ensures r == FeeOf(msgTx, getTx)
    {
      var outValues := SumOutputValues();
      var inValues := SumInputValues(getTx);
      if inValues.Failure? {
        return Failure(inValues.error);
      }
      WrapSub(InputTotal(msgTx.txIn, getTx).value, OutputTotal(msgTx.txOut));
      return Success(Wrap64(inValues.value - outValues));
    }

    /** The first loop of Fee: the sum of the output values, wrapped to int64. */
    method SumOutputValues() returns (outValues: int64)
      ensures outValues == Wrap64(OutputTotal(msgTx.txOut))
    {
      var outs := msgTx.txOut;
      outValues := 0;
      for i := 0 to |outs|
        invariant outValues == Wrap64(OutputTotal(outs[..i]))
      {
        OutputTotalStep(outs, i);
        outValues := Wrap64(outValues + outs[i].value);
      }
      assert outs[..|outs|] == outs;
    }

    /** The second loop of Fee: the sum of the values the inputs spend, wrapped to
        int64, or the error of the first input whose previous output cannot be resolved. */
    method SumInputValues(getTx: Hash -> Result<Tx>) returns (r: Result<int64>)
      ensures InputTotal(msgTx.txIn, getTx).Failure? ==> r == Failure(InputTotal(msgTx.txIn, getTx).error)
      ensures InputTotal(msgTx.txIn, getTx).Success? ==> r == Success(Wrap64(InputTotal(msgTx.txIn, getTx).value))
    {
      var ins := msgTx.txIn;
      var inValues: int64 := 0;
      for i := 0 to |ins|
        invariant InputTotal(ins[..i], getTx).Success?
        invariant inValues == Wrap64(InputTotal(ins[..i], getTx).value)
      {
        var txin := ins[i];
        InputTotalStep(ins, getTx, i);
        var prevTx := getTx(txin.previousOutPoint.hash);
        if prevTx.Failure? {
          InputTotalFailurePersists(ins, getTx, i + 1);
          return Failure(prevTx.error);
        }
        var idx := txin.previousOutPoint.index;
        if idx >= |prevTx.value.msgTx.txOut| {
          InputTotalFailurePersists(ins, getTx, i + 1);
          return Failure(IndexOutOfRange(idx));
        }
        inValues := Wrap64(inValues + prevTx.value.msgTx.txOut[idx].value);
      }
      assert ins[..|ins|] == ins;
      return Success(inValues);
    }
  }

  // ---------------------------------------------------------------------------
  // Concatenation of byte strings

  /** The in-order concatenation of a list of byte strings. */
  function Flatten(ss: seq<Bytes>): Bytes
    decreases |ss|
  {
    if ss == [] then [] else Flatten(ss[..|ss| - 1]) + ss[|ss| - 1]
  }

  /** The sum of the lengths of a list of byte strings. */
  function TotalLength(ss: seq<Bytes>): nat
    decreases |ss|
  {
    if ss == [] then 0 else TotalLength(ss[..|ss| - 1]) + |ss[|ss| - 1]|
  }

  lemma FlattenSnoc(ss: seq<Bytes>, s: Bytes)
    ensures Flatten(ss + [s]) == Flatten(ss) + s
  {
    assert (ss + [s])[..|ss|] == ss;
  }

  lemma {:induction false} FlattenAppend(a: seq<Bytes>, b: seq<Bytes>)
    ensures Flatten(a + b) == Flatten(a) + Flatten(b)
    decreases |b|
  {
    if b == [] {
      assert a + b == a;
    } else {
      var b' := b[..|b| - 1];
      assert a + b == (a + b') + [b[|b| - 1]];
      assert b == b' + [b[|b| - 1]];
      FlattenSnoc(a + b', b[|b| - 1]);
      FlattenSnoc(b', b[|b| - 1]);
      FlattenAppend(a, b');
    }
  }

  /** The concatenation is as long as all its parts together. */
  lemma {:induction false} FlattenLength(ss: seq<Bytes>)
    ensures |Flatten(ss)| == TotalLength(ss)
    decreases |ss|
  {
    if ss != [] {
      FlattenLength(ss[..|ss| - 1]);
    }
  }

  /** Part `i` appears verbatim in the concatenation, right after the parts before it. */
  lemma FlattenAt(ss: seq<Bytes>, i: nat)
    requires i < |ss|
    ensures Flatten(ss) == Flatten(ss[..i]) + ss[i] + Flatten(ss[i + 1..])
    ensures |Flatten(ss[..i])| == TotalLength(ss[..i])
    ensures Flatten(ss)[TotalLength(ss[..i])..TotalLength(ss[..i]) + |ss[i]|] == ss[i]
  {
    assert ss == ss[..i] + [ss[i]] + ss[i + 1..];
    FlattenAppend(ss[..i] + [ss[i]], ss[i + 1..]);
    FlattenSnoc(ss[..i], ss[i]);
    FlattenLength(ss[..i]);
  }

  // ---------------------------------------------------------------------------
  // Input scripts

  /** The signature scripts of the inputs, in input order. */
  function SignatureScripts(ins: seq<TxIn>): (ss: seq<Bytes>)
    ensures |ss| == |ins|
  {
    seq(|ins|, i requires 0 <= i < |ins| => ins[i].signatureScript)
  }

  /** ConcatTxInScripts keeps every input's script unchanged and in place: its length
      is the sum of the script lengths, and input `i`'s script starts right after the
      scripts of the inputs before it. */
  lemma InScriptsVerbatim(ins: seq<TxIn>, i: nat)
    requires i < |ins|
    ensures |Flatten(SignatureScripts(ins))| == TotalLength(SignatureScripts(ins))
    ensures TotalLength(SignatureScripts(ins[..i])) + |ins[i].signatureScript| <= TotalLength(SignatureScripts(ins))
    ensures
      var offset := TotalLength(SignatureScripts(ins[..i]));
      Flatten(SignatureScripts(ins))[offset..offset + |ins[i].signatureScript|] == ins[i].signatureScript
  {
    var ss := SignatureScripts(ins);
    assert ss[..i] == SignatureScripts(ins[..i]);
    FlattenLength(ss);
    FlattenAt(ss, i);
  }

  // ---------------------------------------------------------------------------
  // Output payload data

  /** What one output adds to the concatenated payload: its extracted bytes, or
      nothing when extraction fails. */
  function Contribution(r: Result<Bytes>): Bytes {
    if r.Success? then r.value else []
  }

  /** The best-effort concatenation of the outputs' non-opcode bytes. */
  function NonOPData(outs: seq<TxOut>, getNonOPBytes: Bytes -> Result<Bytes>): Bytes
    decreases |outs|
  {
    if outs == [] then []
    else NonOPData(outs[..|outs| - 1], getNonOPBytes) + Contribution(getNonOPBytes(outs[|outs| - 1].pkScript))
  }

  /** The extracted bytes of exactly those outputs whose extraction succeeds, in order. */
  function Successes(outs: seq<TxOut>, getNonOPBytes: Bytes -> Result<Bytes>): seq<Bytes>
    decreases |outs|
  {
    if outs == [] then []
    else
      var rest := Successes(outs[..|outs| - 1], getNonOPBytes);
      var last := getNonOPBytes(outs[|outs| - 1].pkScript);
      if last.Success? then rest + [last.value] else rest
  }

  lemma NonOPDataSnoc(outs: seq<TxOut>, o: TxOut, getNonOPBytes: Bytes -> Result<Bytes>)
    ensures NonOPData(outs + [o], getNonOPBytes) == NonOPData(outs, getNonOPBytes) + Contribution(getNonOPBytes(o.pkScript))
  {
    assert (outs + [o])[..|outs|] == outs;
  }

  lemma {:induction false} NonOPDataAppend(a: seq<TxOut>, b: seq<TxOut>, getNonOPBytes: Bytes -> Result<Bytes>)
    ensures NonOPData(a + b, getNonOPBytes) == NonOPData(a, getNonOPBytes) + NonOPData(b, getNonOPBytes)
    decreases |b|
  {
    if b == [] {
      assert a + b == a;
    } else {
      var b' := b[..|b| - 1];
      assert a + b == (a + b') + [b[|b| - 1]];
      assert b == b' + [b[|b| - 1]];
      NonOPDataSnoc(a + b', b[|b| - 1], getNonOPBytes);
      NonOPDataSnoc(b', b[|b| - 1], getNonOPBytes);
      NonOPDataAppend(a, b', getNonOPBytes);
    }
  }

  lemma SplitAround<T>(s: seq<T>, i: nat)
    requires i < |s|
    ensures s == s[..i] + [s[i]] + s[i + 1..]
  {
  }

  lemma NonOPDataAround(before: seq<TxOut>, o: TxOut, after: seq<TxOut>, getNonOPBytes: Bytes -> Result<Bytes>)
    ensures NonOPData(before + [o] + after, getNonOPBytes)
      == NonOPData(before, getNonOPBytes) + Contribution(getNonOPBytes(o.pkScript)) + NonOPData(after, getNonOPBytes)
  {
    NonOPDataAppend(before + [o], after, getNonOPBytes);
    NonOPDataSnoc(before, o, getNonOPBytes);
  }

  /** Output `i` adds its own contribution between those of the outputs before and after it. */
  lemma NonOPDataSplit(outs: seq<TxOut>, getNonOPBytes: Bytes -> Result<Bytes>, i: nat)
    requires i < |outs|
    ensures NonOPData(outs, getNonOPBytes)
      == NonOPData(outs[..i], getNonOPBytes) + Contribution(getNonOPBytes(outs[i].pkScript)) + NonOPData(outs[i + 1..], getNonOPBytes)
  {
    SplitAround(outs, i);
    NonOPDataAround(outs[..i], outs[i], outs[i + 1..], getNonOPBytes);
  }

  /** An output whose extraction fails contributes no bytes: removing it leaves the
      concatenation unchanged. */
  lemma NonOPDataSkipsFailure(outs: seq<TxOut>, getNonOPBytes: Bytes -> Result<Bytes>, i: nat)
    requires i < |outs|
    ensures getNonOPBytes(outs[i].pkScript).Failure? ==>
      NonOPData(outs, getNonOPBytes) == NonOPData(outs[..i] + outs[i + 1..], getNonOPBytes)
  {
    NonOPDataSplit(outs, getNonOPBytes, i);
    NonOPDataAppend(outs[..i], outs[i + 1..], getNonOPBytes);
  }

  /** The concatenation is exactly the in-order concatenation of the successful
      extractions. */
  lemma {:induction false} NonOPDataIsConcatOfSuccesses(outs: seq<TxOut>, getNonOPBytes: Bytes -> Result<Bytes>)
    ensures NonOPData(outs, getNonOPBytes) == Flatten(Successes(outs, getNonOPBytes))
    decreases |outs|
  {
    if outs != [] {
      var rest := Successes(outs[..|outs| - 1], getNonOPBytes);
      NonOPDataIsConcatOfSuccesses(outs[..|outs| - 1], getNonOPBytes);
      var last := getNonOPBytes(outs[|outs| - 1].pkScript);
      if last.Success? {
        FlattenSnoc(rest, last.value);
      }
    }
  }

  /** When no output's extraction succeeds (in particular when there are no outputs),
      the concatenation is empty. */
  lemma {:induction false} NonOPDataAllFail(outs: seq<TxOut>, getNonOPBytes: Bytes -> Result<Bytes>)
    requires forall i :: 0 <= i < |outs| ==> getNonOPBytes(outs[i].pkScript).Failure?
    ensures NonOPData(outs, getNonOPBytes) == []
    decreases |outs|
  {
    if outs != [] {
      var init := outs[..|outs| - 1];
      assert forall i :: 0 <= i < |init| ==> init[i] == outs[i];
      NonOPDataAllFail(init, getNonOPBytes);
    }
  }

  /** When every extraction succeeds, the concatenation is the in-order concatenation
      of the per-output results of GetNonOPDataFromTxOut. */
  lemma ConcatOfPerIndexResults(tx: Tx, getNonOPBytes: Bytes -> Result<Bytes>, perOutput: seq<Bytes>)
    requires |perOutput| == |tx.msgTx.txOut|
    requires forall i :: 0 <= i < |perOutput| ==> tx.GetNonOPDataFromTxOut(getNonOPBytes, i) == Success(perOutput[i])
    ensures NonOPData(tx.msgTx.txOut, getNonOPBytes) == Flatten(perOutput)
  {
    ConcatOfAllSuccesses(tx.msgTx.txOut, getNonOPBytes, perOutput);
  }

  lemma {:induction false} ConcatOfAllSuccesses(outs: seq<TxOut>, getNonOPBytes: Bytes -> Result<Bytes>, extracted: seq<Bytes>)
    requires |extracted| == |outs|
    requires forall i :: 0 <= i < |outs| ==> getNonOPBytes(outs[i].pkScript) == Success(extracted[i])
    ensures NonOPData(outs, getNonOPBytes) == Flatten(extracted)
    decreases |outs|
  {
    if outs != [] {
      var n := |outs| - 1;
      var init := outs[..n];
      assert forall i :: 0 <= i < n ==> init[i] == outs[i];
      ConcatOfAllSuccesses(init, getNonOPBytes, extracted[..n]);
    }
  }

  // ---------------------------------------------------------------------------
  // Output addresses

  /** The fail-fast collection of every output's address list: the error of the first
      output whose extraction fails, otherwise all lists in output order. */
  function AddressesOf(outs: seq<TxOut>, extractAddrs: Bytes -> Result<seq<Address>>): Result<seq<seq<Address>>>
    decreases |outs|
  {
    if outs == [] then Success([])
    else
      match AddressesOf(outs[..|outs| - 1], extractAddrs)
      case Failure(e) => Failure(e)
      case Success(init) =>
        match extractAddrs(outs[|outs| - 1].pkScript)
        case Failure(e) => Failure(e)
        case Success(last) => Success(init + [last])
  }

  /** Once a prefix of the outputs has failed, the whole collection fails with that error. */
  lemma {:induction false} AddressesOfFailurePersists(outs: seq<TxOut>, extractAddrs: Bytes -> Result<seq<Address>>, k: nat)
    requires k <= |outs|
    requires AddressesOf(outs[..k], extractAddrs).Failure?
    ensures AddressesOf(outs, extractAddrs) == AddressesOf(outs[..k], extractAddrs)
    decreases |outs|
  {
    if k == |outs| {
      assert outs[..k] == outs;
    } else {
      var init := outs[..|outs| - 1];
      assert init[..k] == outs[..k];
      AddressesOfFailurePersists(init, extractAddrs, k);
    }
  }

  /** GetTxOutAddresses fails exactly when some output's extraction fails, and then with
      the error of the first such output; otherwise it has one entry per output, entry
      `i` being output `i`'s address list. */
  lemma {:induction false} AddressesOfCharacterized(outs: seq<TxOut>, extractAddrs: Bytes -> Result<seq<Address>>)
    ensures AddressesOf(outs, extractAddrs).Failure? <==>
      exists i :: 0 <= i < |outs| && extractAddrs(outs[i].pkScript).Failure?
    ensures AddressesOf(outs, extractAddrs).Failure? ==>
      exists i :: 0 <= i < |outs| && extractAddrs(outs[i].pkScript) == Failure(AddressesOf(outs, extractAddrs).error) &&
        forall j :: 0 <= j < i ==> extractAddrs(outs[j].pkScript).Success?
    ensures AddressesOf(outs, extractAddrs).Success? ==>
      |AddressesOf(outs, extractAddrs).value| == |outs| &&
      forall i :: 0 <= i < |outs| ==> AddressesOf(outs, extractAddrs).value[i] == extractAddrs(outs[i].pkScript).value
    decreases |outs|
  {
    if outs != [] {
      var n := |outs| - 1;
      var init := outs[..n];
      assert forall i :: 0 <= i < n ==> init[i] == outs[i];
      AddressesOfCharacterized(init, extractAddrs);
      var r := AddressesOf(outs, extractAddrs);
      if AddressesOf(init, extractAddrs).Success? {
        var last := extractAddrs(outs[n].pkScript);
        if last.Failure? {
          assert extractAddrs(outs[n].pkScript) == Failure(r.error);
        } else {
          assert forall i :: 0 <= i < |outs| ==> extractAddrs(outs[i].pkScript).Success? by {
            forall i | 0 <= i < |outs| ensures extractAddrs(outs[i].pkScript).Success? {
              if i < n {
                assert init[i] == outs[i];
              }
            }
          }
        }
      }
    }
  }

  // ---------------------------------------------------------------------------
  // Greatest output value

  /** `idx` is what FindMaxValueTxOut promises: 0 when no output has a positive value;
      otherwise the index of an output whose value no other output exceeds and which
      every earlier output's value is strictly below (the first maximum). */
  ghost predicate IsMaxValueIndex(outs: seq<TxOut>, idx: nat) {
    if forall j :: 0 <= j < |outs| ==> outs[j].value <= 0 then idx == 0
    else
      idx < |outs| &&
      (forall j :: 0 <= j < |outs| ==> outs[j].value <= outs[idx].value) &&
      (forall k :: 0 <= k < idx ==> outs[k].value < outs[idx].value)
  }

  /** The promise of FindMaxValueTxOut admits exactly one index. */
  lemma MaxValueIndexUnique(outs: seq<TxOut>, a: nat, b: nat)
    requires IsMaxValueIndex(outs, a) && IsMaxValueIndex(outs, b)
    ensures a == b
  {
  }

  /** On output values 5, 9, 9, 3 the first maximum, index 1, is chosen. */
  lemma MaxValueIndexExample(outs: seq<TxOut>, idx: nat)
    requires |outs| == 4
    requires outs[0].value == 5 && outs[1].value == 9 && outs[2].value == 9 && outs[3].value == 3
    requires IsMaxValueIndex(outs, idx)
    ensures idx == 1
  {
    assert outs[1].value > 0;
    assert idx < 4;
    assert outs[idx].value >= 9;
  }

  // ---------------------------------------------------------------------------
  // Dust heuristic

  /** The number of outputs carrying the dust value. */
  function DustCount(outs: seq<TxOut>): nat
    decreases |outs|
  {
    if outs == [] then 0
    else DustCount(outs[..|outs| - 1]) + (if outs[|outs| - 1].value == DustValue then 1 else 0)
  }

  /** Exactly one output does not carry the dust value. */
  ghost predicate ExactlyOneNonDust(outs: seq<TxOut>) {
    exists k :: 0 <= k < |outs| && outs[k].value != DustValue &&
      forall j :: 0 <= j < |outs| && j != k ==> outs[j].value == DustValue
  }

  /** There are at least two outputs and all but exactly one of them are dust. */
  ghost predicate AllButOneDust(outs: seq<TxOut>) {
    |outs| >= 2 && ExactlyOneNonDust(outs)
  }

  /** Every output is dust exactly when all outputs are counted. */
  lemma {:induction false} DustCountAll(outs: seq<TxOut>)
    ensures DustCount(outs) <= |outs|
    ensures DustCount(outs) == |outs| <==> forall j :: 0 <= j < |outs| ==> outs[j].value == DustValue
    decreases |outs|
  {
    if outs != [] {
      var n := |outs| - 1;
      var init := outs[..n];
      assert forall j :: 0 <= j < n ==> init[j] == outs[j];
      DustCountAll(init);
    }
  }

  /** All outputs but one are counted exactly when exactly one output is not dust. */
  lemma {:induction false} DustCountAllButOne(outs: seq<TxOut>)
    ensures DustCount(outs) == |outs| - 1 <==> ExactlyOneNonDust(outs)
    decreases |outs|
  {
    if outs != [] {
      var n := |outs| - 1;
      var init := outs[..n];
      assert outs == init + [outs[n]];
      DustCountAllButOne(init);
      DustCountAll(init);
      if outs[n].value == DustValue {
        ExactlyOneNonDustAfterDust(init, outs[n]);
      } else {
        ExactlyOneNonDustAfterNonDust(init, outs[n]);
      }
    }
  }

  lemma ExactlyOneNonDustAfterDust(init: seq<TxOut>, o: TxOut)
    requires o.value == DustValue
    ensures ExactlyOneNonDust(init + [o]) <==> ExactlyOneNonDust(init)
  {
    var outs := init + [o];
    if ExactlyOneNonDust(init) {
      var k :| 0 <= k < |init| && init[k].value != DustValue &&
        forall j :: 0 <= j < |init| && j != k ==> init[j].value == DustValue;
      assert outs[k].value != DustValue;
      assert forall j :: 0 <= j < |outs| && j != k ==> outs[j].value == DustValue by {
        forall j | 0 <= j < |outs| && j != k ensures outs[j].value == DustValue {
          if j < |init| { assert outs[j] == init[j]; }
        }
      }
    }
    if ExactlyOneNonDust(outs) {
      var k :| 0 <= k < |outs| && outs[k].value != DustValue &&
        forall j :: 0 <= j < |outs| && j != k ==> outs[j].value == DustValue;
      assert k < |init|;
      assert init[k].value != DustValue;
      assert forall j :: 0 <= j < |init| && j != k ==> init[j].value == DustValue by {
        forall j | 0 <= j < |init| && j != k ensures init[j].value == DustValue {
          assert outs[j] == init[j];
        }
      }
    }
  }

  lemma ExactlyOneNonDustAfterNonDust(init: seq<TxOut>, o: TxOut)
    requires o.value != DustValue
    ensures ExactlyOneNonDust(init + [o]) <==> forall j :: 0 <= j < |init| ==> init[j].value == DustValue
  {
    var outs := init + [o];
    if ExactlyOneNonDust(outs) {
      var k :| 0 <= k < |outs| && outs[k].value != DustValue &&
        forall j :: 0 <= j < |outs| && j != k ==> outs[j].value == DustValue;
      assert outs[|init|] == o;
      assert k == |init|;
      forall j | 0 <= j < |init| ensures init[j].value == DustValue {
        assert outs[j] == init[j];
      }
    }
    if forall j :: 0 <= j < |init| ==> init[j].value == DustValue {
      assert outs[|init|].value != DustValue;
      assert forall j :: 0 <= j < |outs| && j != |init| ==> outs[j].value == DustValue by {
        forall j | 0 <= j < |outs| && j != |init| ensures outs[j].value == DustValue {
          assert outs[j] == init[j];
        }
      }
    }
  }

  /** The dust test of HasSuspiciousOutputValues holds exactly when there are at least
      two outputs and all but exactly one of them are dust; so one output alone is
      never suspicious. */
  lemma SuspiciousIffAllButOneDust(outs: seq<TxOut>)
    ensures (DustCount(outs) > 0 && DustCount(outs) == |outs| - 1) <==> AllButOneDust(outs)
  {
    DustCountAllButOne(outs);
    DustCountAll(outs);
  }

  /** On values 1, 1, 1, 500000 the test holds; on 1, 1, 500000, 500000 it does not. */
  lemma SuspiciousExamples(outs: seq<TxOut>)
    requires |outs| == 4 && outs[0].value == 1 && outs[1].value == 1 && outs[3].value == 500000
    ensures outs[2].value == 1 ==> AllButOneDust(outs)
    ensures outs[2].value == 500000 ==> !AllButOneDust(outs)
  {
    if outs[2].value == 1 {
      assert outs[3].value != DustValue &&
        forall j :: 0 <= j < |outs| && j != 3 ==> outs[j].value == DustValue;
    }
  }

  // ---------------------------------------------------------------------------
  // Fee

  /** The sum of the output values. */
  function OutputTotal(outs: seq<TxOut>): int
    decreases |outs|
  {
    if outs == [] then 0 else OutputTotal(outs[..|outs| - 1]) + outs[|outs| - 1].value
  }

  /** The previous output an input spends, looked up through the transaction store. */
  function ResolvePrevOut(txin: TxIn, getTx: Hash -> Result<Tx>): Result<TxOut> {
    match getTx(txin.previousOutPoint.hash)
    case Failure(e) => Failure(e)
    case Success(prevTx) =>
      var idx := txin.previousOutPoint.index;
      if idx < |prevTx.msgTx.txOut| then Success(prevTx.msgTx.txOut[idx])
      else Failure(IndexOutOfRange(idx))
  }

  /** The referenced previous outputs of inputs that all resolve, in input order. */
  function PrevOuts(ins: seq<TxIn>, getTx: Hash -> Result<Tx>): (prev: seq<TxOut>)
    requires forall i :: 0 <= i < |ins| ==> ResolvePrevOut(ins[i], getTx).Success?
    ensures |prev| == |ins|
  {
    seq(|ins|, i requires 0 <= i < |ins| => ResolvePrevOut(ins[i], getTx).value)
  }

  /** The fail-fast sum of the values the inputs spend. */
  function InputTotal(ins: seq<TxIn>, getTx: Hash -> Result<Tx>): Result<int>
    decreases |ins|
  {
    if ins == [] then Success(0)
    else
      match InputTotal(ins[..|ins| - 1], getTx)
      case Failure(e) => Failure(e)
      case Success(init) =>
        match ResolvePrevOut(ins[|ins| - 1], getTx)
        case Failure(e) => Failure(e)
        case Success(prevOut) => Success(init + prevOut.value)
  }

  /** One more output: the running sum and its wrapped form both advance by its value. */
  lemma OutputTotalStep(outs: seq<TxOut>, i: nat)
    requires i < |outs|
    ensures OutputTotal(outs[..i + 1]) == OutputTotal(outs[..i]) + outs[i].value
    ensures Wrap64(Wrap64(OutputTotal(outs[..i])) + outs[i].value) == Wrap64(OutputTotal(outs[..i + 1]))
  {
    assert outs[..i + 1][..i] == outs[..i];
    WrapAdd(OutputTotal(outs[..i]), outs[i].value);
  }

  /** One more input, after the earlier inputs all resolved: it fails with its own
      error, or the running sum and its wrapped form advance by the value it spends. */
  lemma InputTotalStep(ins: seq<TxIn>, getTx: Hash -> Result<Tx>, i: nat)
    requires i < |ins|
    requires InputTotal(ins[..i], getTx).Success?
    ensures ResolvePrevOut(ins[i], getTx).Failure? ==>
      InputTotal(ins[..i + 1], getTx) == Failure(ResolvePrevOut(ins[i], getTx).error)
    ensures ResolvePrevOut(ins[i], getTx).Success? ==>
      var total := InputTotal(ins[..i], getTx).value;
      var value := ResolvePrevOut(ins[i], getTx).value.value;
      InputTotal(ins[..i + 1], getTx) == Success(total + value) &&
      Wrap64(Wrap64(total) + value) == Wrap64(total + value)
  {
    assert ins[..i + 1][..i] == ins[..i];
    if ResolvePrevOut(ins[i], getTx).Success? {
      WrapAdd(InputTotal(ins[..i], getTx).value, ResolvePrevOut(ins[i], getTx).value.value);
    }
  }

  /** What Fee computes: the input total minus the output total, wrapped to int64. */
  function FeeOf(msgTx: MsgTx, getTx: Hash -> Result<Tx>): Result<int64> {
    match InputTotal(msgTx.txIn, getTx)
    case Failure(e) => Failure(e)
    case Success(inValues) => Success(Wrap64(inValues - OutputTotal(msgTx.txOut)))
  }

  lemma {:induction false} InputTotalFailurePersists(ins: seq<TxIn>, getTx: Hash -> Result<Tx>, k: nat)
    requires k <= |ins|
    requires InputTotal(ins[..k], getTx).Failure?
    ensures InputTotal(ins, getTx) == InputTotal(ins[..k], getTx)
    decreases |ins|
  {
    if k == |ins| {
      assert ins[..k] == ins;
    } else {
      var init := ins[..|ins| - 1];
      assert init[..k] == ins[..k];
      InputTotalFailurePersists(init, getTx, k);
    }
  }

  /** The input total fails exactly when some input does not resolve, with the error of
      the first such input; otherwise it is the sum of the referenced outputs' values. */
  lemma {:induction false} InputTotalCharacterized(ins: seq<TxIn>, getTx: Hash -> Result<Tx>)
    ensures InputTotal(ins, getTx).Failure? <==>
      exists i :: 0 <= i < |ins| && ResolvePrevOut(ins[i], getTx).Failure?
    ensures InputTotal(ins, getTx).Failure? ==>
      exists i :: 0 <= i < |ins| && ResolvePrevOut(ins[i], getTx) == Failure(InputTotal(ins, getTx).error) &&
        forall j :: 0 <= j < i ==> ResolvePrevOut(ins[j], getTx).Success?
    ensures InputTotal(ins, getTx).Success? ==>
      InputTotal(ins, getTx).value == OutputTotal(PrevOuts(ins, getTx))
    decreases |ins|
  {
    if ins != [] {
      var n := |ins| - 1;
      var init := ins[..n];
      assert forall i :: 0 <= i < n ==> init[i] == ins[i];
      InputTotalCharacterized(init, getTx);
      var r := InputTotal(ins, getTx);
      if InputTotal(init, getTx).Success? {
        var last := ResolvePrevOut(ins[n], getTx);
        if last.Success? {
          assert forall i :: 0 <= i < |ins| ==> ResolvePrevOut(ins[i], getTx).Success? by {
            forall i | 0 <= i < |ins| ensures ResolvePrevOut(ins[i], getTx).Success? {
              if i < n {
                assert init[i] == ins[i];
              }
            }
          }
          var prev := PrevOuts(ins, getTx);
          assert prev[..n] == PrevOuts(init, getTx);
        }
      }
    }
  }

  /** Fee fails exactly when some input's previous output cannot be resolved, with the
      error of the first such input; otherwise it is the values the inputs spend minus
      the values of the own outputs, wrapped to int64. */
  lemma FeeOfCharacterized(msgTx: MsgTx, getTx: Hash -> Result<Tx>)
    ensures FeeOf(msgTx, getTx).Failure? <==>
      exists i :: 0 <= i < |msgTx.txIn| && ResolvePrevOut(msgTx.txIn[i], getTx).Failure?
    ensures FeeOf(msgTx, getTx).Failure? ==>
      exists i :: 0 <= i < |msgTx.txIn| && ResolvePrevOut(msgTx.txIn[i], getTx) == Failure(FeeOf(msgTx, getTx).error) &&
        forall j :: 0 <= j < i ==> ResolvePrevOut(msgTx.txIn[j], getTx).Success?
    ensures FeeOf(msgTx, getTx).Success? ==>
      FeeOf(msgTx, getTx).value == Wrap64(OutputTotal(PrevOuts(msgTx.txIn, getTx)) - OutputTotal(msgTx.txOut))
  {
    InputTotalCharacterized(msgTx.txIn, getTx);
  }

  /** When every input resolves and the true difference fits in int64, the fee is
      exact, however the partial sums wrapped on the way. */
  lemma FeeExact(msgTx: MsgTx, getTx: Hash -> Result<Tx>)
    requires forall i :: 0 <= i < |msgTx.txIn| ==> ResolvePrevOut(msgTx.txIn[i], getTx).Success?
    requires -TWO_63 <= OutputTotal(PrevOuts(msgTx.txIn, getTx)) - OutputTotal(msgTx.txOut) < TWO_63
    ensures FeeOf(msgTx, getTx) == Success(OutputTotal(PrevOuts(msgTx.txIn, getTx)) - OutputTotal(msgTx.txOut))
  {
    FeeOfCharacterized(msgTx, getTx);
  }

  /** Without inputs the fee is minus the sum of the outputs (wrapped to int64). */
  lemma FeeNoInputs(msgTx: MsgTx, getTx: Hash -> Result<Tx>)
    requires msgTx.txIn == []
    ensures FeeOf(msgTx, getTx) == Success(Wrap64(-OutputTotal(msgTx.txOut)))
  {
  }
}
