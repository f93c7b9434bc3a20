# Transaction analysis layer of local-blockchain-parser, in Dafny

This project models the `Tx` wrapper of the blockchain parser (`types/tx.go`): a decoded
Bitcoin transaction (ordered inputs and outputs, each carrying a script) together with
where it was found in the block archive, and the read-only analyses offered on it:

- the archive file name (`blk%05d.dat`);
- best-effort recovery of data hidden in output scripts: each output's non-opcode bytes,
  concatenated over all outputs, skipping every output whose script cannot be walked;
- decoding of the payload carried by that concatenation;
- verbatim concatenation of the inputs' signature scripts;
- the address lists of the outputs, one output at a time, or all of them fail-fast;
- the index of the first output of greatest value;
- the "all outputs but one are dust" heuristic;
- the fee, resolving each input's previous output through the transaction store.

Files:

- `results.dfy` (module `Results`): `Error` and `Result<T>`, standing for Go's
  `(T, error)` pairs.
- `goints.dfy` (module `GoInts`): Go's fixed-width integer types, and `Wrap64`, the
  two's-complement wrap-around of `int64` arithmetic.
- `decimal.dfy` (module `Decimal`): zero-padded decimal digits, for the `%05d` verb.
- `tx.dfy` (module `Types`): the transaction records, the datatype `Tx` whose member
  functions and methods are the Go methods, the specification functions they are
  proved against, and the lemmas.

The transaction is never changed by any of these methods, so `Tx` is a datatype. The
methods whose Go bodies are loops (`ConcatNonOPDataFromTxOuts`, `ConcatTxInScripts`,
`GetTxOutAddresses`, `FindMaxValueTxOut`, `HasSuspiciousOutputValues`, `Fee`) are Dafny
methods with the same loops, each proved equal to a specification function or to a
property stated outright. The two loops of `Fee` are the methods `SumOutputValues` and
`SumInputValues`, which `Fee` calls in the same order. `GetTxOutAddresses` fills a
freshly allocated array by index and returns early on error, as the Go code fills its preallocated slice.

The collaborators whose code is not part of this model are parameters: total functions
that return a value or an error. `getNonOPBytes` stands for `utils.GetNonOPBytes`,
`extractAddrs` for the address list of `txscript.ExtractPkScriptAddrs` on the main
network, `getSatoshiEncodedData` for `utils.GetSatoshiEncodedData`, and `getTx` for the
`DB.GetTx` transaction store.

Choices the model makes where the code is silent, panics or converts to floating point:

- Zero outputs are accepted, as in the code. `FindMaxValueTxOut` then returns 0, and
  `HasSuspiciousOutputValues` returns false.
- A previous output index outside the referenced transaction makes the code panic
  (types/tx.go:132). The model departs from the code here: it returns the distinct error
  `IndexOutOfRange`. A lookup error is returned as the store gave it, as in the code.
- The fee is computed in wrapping `int64` arithmetic, as in the code. The model departs
  from the code in the result: the code converts the difference to a BTC float
  (types/tx.go:135), the model returns it in satoshis.

## Model

| member | source | states |
|---|---|---|
| `Types.Tx.DATFilename` | types/tx.go:29-31 | The name has 12 characters: `blk`, five decimal digits, `.dat`. The digits read back as the archive index, a `uint16`, so different indexes give different names. |
| `Decimal.ZeroPad` | types/tx.go:30 | The padded form has exactly `width` characters, all decimal digits. |
| `Decimal.ZeroPadRoundTrip` | types/tx.go:30 | A number below 10^width is read back exactly from its zero-padded digits. |
| `Types.Tx.GetNonOPDataFromTxOut` | types/tx.go:33-35 | Output `i`'s extraction, tied to the concatenation. On success its bytes sit in the concatenation between the data of earlier and later outputs. On failure, removing the output leaves the concatenation unchanged. The index must be in range. |
| `Types.Tx.ConcatNonOPDataFromTxOuts` | types/tx.go:37-50 | Never returns an error. Its bytes are the best-effort concatenation `NonOPData` of all outputs, in order. |
| `Types.NonOPDataIsConcatOfSuccesses` | types/tx.go:37-50 | The concatenation is the in-order concatenation of exactly the successful extractions. |
| `Types.NonOPDataSplit` | types/tx.go:40-47 | Each output adds its own extraction between those of the outputs before and after it, or nothing if extraction fails. |
| `Types.NonOPDataSkipsFailure` | types/tx.go:41-44 | An output whose extraction fails adds no bytes: deleting it does not change the result. |
| `Types.NonOPDataAllFail` | types/tx.go:37-50 | With no outputs, or when every extraction fails, the result is empty. |
| `Types.ConcatOfPerIndexResults` | types/tx.go:33-50 | When every extraction succeeds, the concatenation equals the in-order concatenation of the per-index results of `GetNonOPDataFromTxOut`. |
| `Types.ConcatOfAllSuccesses` | types/tx.go:37-50 | When every extraction succeeds, the concatenation is the concatenation of those extracted byte strings. |
| `Types.Tx.ConcatSatoshiDataFromTxOuts` | types/tx.go:52-59 | The result is the decoder applied to the best-effort concatenation. The concatenation stage adds no error of its own. |
| `Types.Tx.ConcatTxInScripts` | types/tx.go:61-69 | Never returns an error. Its bytes are the concatenation of every input's signature script, in input order. |
| `Types.InScriptsVerbatim` | types/tx.go:61-69 | The length is the sum of the script lengths. Input `i`'s script appears unchanged, directly after the scripts of the inputs before it. |
| `Types.FlattenLength` | types/tx.go:65 | A concatenation is as long as its parts together. |
| `Types.Tx.GetTxOutAddress` | types/tx.go:71-79 | Output `i`'s address list, tied to the collection. An error here makes `GetTxOutAddresses` fail. When the collection succeeds, it has one entry per output, and entry `i` is this list. |
| `Types.Tx.GetTxOutAddresses` | types/tx.go:81-93 | Returns exactly the fail-fast collection `AddressesOf` of the outputs' address lists. |
| `Types.AddressesOfCharacterized` | types/tx.go:81-93 | The collection fails if and only if some output's extraction fails. It then carries the error of the first failing output. Otherwise it has one entry per output, and entry `i` is output `i`'s list. |
| `Types.AddressesOfFailurePersists` | types/tx.go:85-88 | Once the outputs up to some point have failed, later outputs do not change the error returned. |
| `Types.Tx.FindMaxValueTxOut` | types/tx.go:95-105 | The result is 0 when no output has a positive value. Otherwise it is an output whose value no other output exceeds, and every earlier output's value is strictly lower. |
| `Types.MaxValueIndexUnique` | types/tx.go:95-105 | The promise of `FindMaxValueTxOut` admits exactly one index. |
| `Types.MaxValueIndexExample` | types/tx.go:95-105 | On values 5, 9, 9, 3 the index is 1. |
| `Types.Tx.HasSuspiciousOutputValues` | types/tx.go:107-119 | True if and only if the number of outputs of value 1 is positive and one less than the number of outputs. Equivalently, there are at least two outputs and all but exactly one are dust. |
| `Types.DustCountAll` | types/tx.go:108-113 | The dust count is at most the number of outputs. It equals that number if and only if every output is dust. |
| `Types.DustCountAllButOne` | types/tx.go:108-115 | The dust count is one less than the number of outputs if and only if exactly one output is not dust. |
| `Types.SuspiciousIffAllButOneDust` | types/tx.go:107-119 | The code's test holds if and only if there are at least two outputs and all but exactly one are dust. A single output is never suspicious. |
| `Types.SuspiciousExamples` | types/tx.go:107-119 | Values 1, 1, 1, 500000 are suspicious. Values 1, 1, 500000, 500000 are not. |
| `Types.Tx.Fee` | types/tx.go:121-136 | Returns exactly `FeeOf`: a lookup failure of the first unresolvable input, or the resolved input total minus the output total, wrapped to `int64`. |
| `Types.Tx.SumOutputValues` | types/tx.go:122-125 | The first loop of `Fee`: the sum of the output values, accumulated in wrapping `int64` arithmetic, equals the exact sum wrapped to `int64`. |
| `Types.Tx.SumInputValues` | types/tx.go:126-133 | The second loop of `Fee`: the error of the first input whose previous output cannot be resolved, or else the sum of the resolved values wrapped to `int64`. |
| `Types.InputTotalCharacterized` | types/tx.go:126-133 | The input total fails if and only if some input does not resolve. It then carries the error of the first such input. Otherwise it is the sum of the values of the referenced previous outputs. |
| `Types.InputTotalFailurePersists` | types/tx.go:127-131 | Once an input fails to resolve, the later inputs do not change the error returned. |
| `Types.FeeOfCharacterized` | types/tx.go:121-135 | The fee fails if and only if some input's previous output cannot be resolved, with the first such error and no amount. Otherwise it is the sum of the spent outputs' values minus the sum of the own outputs' values, wrapped to `int64`. |
| `Types.FeeExact` | types/tx.go:121-135 | When every input resolves and the true difference fits in `int64`, the fee is that exact difference, even if the running sums wrapped. |
| `Types.FeeNoInputs` | types/tx.go:121-135 | With no inputs the fee is minus the sum of the outputs, wrapped to `int64`. |
| `GoInts.Wrap64` | types/tx.go:124 | The wrapped value is congruent to the exact value modulo 2^64, and equals it when it fits in `int64`. |
| `GoInts.WrapAdd` | types/tx.go:132 | Adding to a wrapped accumulator gives the same result as wrapping the exact sum. |
| `GoInts.WrapSub` | types/tx.go:135 | Subtracting two wrapped accumulators gives the same result as wrapping the exact difference. |

## Left out

- Wire decoding and the btcd library types (`btcutil.Tx`, `MsgTx()`, `chainhash.Hash`). A transaction is plain sequences of input and output records, and a hash is 32 bytes. Input fields the analyses do not read (sequence number, witness) and the transaction version and lock time are not modelled.
- The code of `utils.GetNonOPBytes`, `txscript.ExtractPkScriptAddrs`, `utils.GetSatoshiEncodedData` and the `DB` store is not part of this model. Each is a function parameter returning a value or an error, so nothing is claimed about what they compute. In particular there is no round-trip claim about the payload encoding.
- `txscript.ExtractPkScriptAddrs` also returns a script class and a required-signature count. The code discards both, and the model does too. The fixed main-network parameters are folded into the `extractAddrs` parameter.
- The `DB` field of `Tx` is passed as the `getTx` parameter of `Fee`, not stored in the datatype. A store that returns no transaction and no error cannot be expressed.
- `Satoshis.ToBTC` (floating point). `Fee` returns the amount in satoshis as an `int64`. The dust test `ToBTC() == 0.00000001` is modelled as `value == 1`. That rests on the assumption that 1 satoshi is the only `int64` whose float conversion equals that constant; the conversion is not modelled.
- `Types.Tx.GetNonOPDataFromTxOut`, `Types.Tx.GetTxOutAddress`: an index outside the outputs is a precondition, because the code panics on it.
- `Types.Tx.Fee`: a previous output index outside the referenced transaction panics in the code. The model returns the error `IndexOutOfRange` instead of a panic.
- `Types.Tx.DATFilename`: `Decimal.ZeroPad` keeps only the last five digits, whereas `%05d` prints every digit. The two agree on every `uint16` index.
- `BlockTimestamp`, `BlockIndexInDATFile`, `BlockHash` and `IndexInBlock` are plain fields. No analysis reads them.
- Concurrency: every operation is a read of an immutable value, so there is nothing to model.
