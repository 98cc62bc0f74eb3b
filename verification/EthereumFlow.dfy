/** Submitting Ethereum transactions, with large call data moved to a file first. */
module EthereumFlow {
  import opened Wrappers
  import opened Arith
  import opened Text
  import opened Rlp
  import opened EthereumData

  const INLINE_LIMIT: nat := 5120
  const FIRST_CHUNK: nat := 4096
  const CHUNK_SIZE: nat := 4096
  const DEFAULT_MAX_CHUNKS: nat := 20

  datatype FlowError = NoEthereumData | Undecodable(cause: DecodeError) | TooManyChunks(maxChunks: nat)

  /** An EthereumTransaction as the network receives it; callDataFile is an index into the files. */
  datatype Submission = Submission(data: seq<byte>, maxGasAllowance: Option<int>, callDataFile: Option<nat>)

  /** What the network holds of a client's work: file contents as text, and submitted transactions. */
  class Client {
    var files: seq<string>
    var submitted: seq<Submission>

    constructor ()
      ensures files == [] && submitted == []
    {
      files, submitted := [], [];
    }
  }

  // ---- moving call data to a file ----

  function Take(s: string, n: nat): string { if |s| <= n then s else s[..n] }

  function Drop(s: string, n: nat): string { if |s| <= n then "" else s[n..] }

  function RequiredChunks(contents: string): nat { (|contents| + CHUNK_SIZE - 1) / CHUNK_SIZE }

  /** `if (this.maxChunks && required > this.maxChunks) throw`: zero switches the limit off. */
  predicate ChunksAllowed(contents: string, maxChunks: Option<nat>) {
    var limit := if maxChunks.Some? then maxChunks.value else DEFAULT_MAX_CHUNKS;
    limit == 0 || RequiredChunks(contents) <= limit
  }

  /** What the file holds once createFile has returned. */
  function StoredContents(callData: seq<byte>): string {
    var hexed := HexEncode(callData);
    if |callData| > FIRST_CHUNK then hexed else Take(hexed, FIRST_CHUNK)
  }

  predicate CreateFileSucceeds(callData: seq<byte>, maxChunks: Option<nat>) {
    |callData| > FIRST_CHUNK ==> ChunksAllowed(Drop(HexEncode(callData), FIRST_CHUNK), maxChunks)
  }

  /** FileAppendTransaction.executeAll: all chunks, one after the other, or none. */
  method AppendToFile(client: Client, file: nat, contents: string, maxChunks: Option<nat>)
    returns (r: Result<(), FlowError>)
    requires file < |client.files|
    modifies client
    ensures r.Ok? <==> ChunksAllowed(contents, maxChunks)
    ensures r.Err? ==> r.error == TooManyChunks(if maxChunks.Some? then maxChunks.value else 20)
    ensures client.files == if r.Ok? then old(client.files)[file := old(client.files[file]) + contents]
                            else old(client.files)
    ensures client.submitted == old(client.submitted)
  {
    var limit := if maxChunks.Some? then maxChunks.value else DEFAULT_MAX_CHUNKS;
    var required := RequiredChunks(contents);
    if limit != 0 && required > limit {
      return Err(TooManyChunks(limit));
    }
    var sent := 0;
    ghost var before := client.files[file];
    assert before + contents[..0] == before;
    for chunk := 0 to required
      invariant sent <= |contents| && (sent == chunk * CHUNK_SIZE || (sent == |contents| && chunk == required))
      invariant client.files == old(client.files)[file := old(client.files[file]) + contents[..sent]]
      invariant client.submitted == old(client.submitted)
    {
      var start := chunk * CHUNK_SIZE;
      var end := if start + CHUNK_SIZE < |contents| then start + CHUNK_SIZE else |contents|;
      assert before + contents[..sent] + contents[start..end] == before + contents[..end];
      client.files := client.files[file := client.files[file] + contents[start..end]];
      sent := end;
    }
    assert contents[..sent] == contents;
    r := Ok(());
  }

  method CreateFile(callData: seq<byte>, client: Client, maxChunks: Option<nat>) returns (r: Result<nat, FlowError>)
    modifies client
    ensures r.Ok? <==> CreateFileSucceeds(callData, maxChunks)
    ensures r.Ok? ==> r.value == |old(client.files)| && client.files == old(client.files) + [StoredContents(callData)]
    ensures r.Err? ==> client.files == old(client.files) + [Take(HexEncode(callData), FIRST_CHUNK)]
    ensures r.Err? ==> r.error == TooManyChunks(if maxChunks.Some? then maxChunks.value else 20)
    ensures client.submitted == old(client.submitted)
  {
    var hexedCallData := HexEncode(callData);
    var fileId := |client.files|;
    client.files := client.files + [Take(hexedCallData, FIRST_CHUNK)];
    if |callData| > FIRST_CHUNK {
      var appended := AppendToFile(client, fileId, Drop(hexedCallData, FIRST_CHUNK), maxChunks);
      if appended.Err? {
        return Err(appended.error);
      }
      HexLength(callData);
      assert Take(hexedCallData, FIRST_CHUNK) + Drop(hexedCallData, FIRST_CHUNK) == hexedCallData;
    }
    r := Ok(fileId);
  }

  // ---- the flow ----

  /** The transaction data object, whose call data the flow overwrites in place. */
  class DataObject {
    var tx: TxData

    constructor (tx: TxData)
      ensures this.tx == tx
    {
      this.tx := tx;
    }
  }

  predicate Inline(tx: TxData)
    requires Encodable(tx)
  {
    |ToBytes(tx)| <= INLINE_LIMIT
  }

  function WithoutCallData(tx: TxData): TxData { tx.(callData := []) }

  class Flow {
    var ethereumData: DataObject?
    var maxGasAllowance: Option<int>
    var maxChunks: Option<nat>

    constructor ()
      ensures ethereumData == null && maxGasAllowance == None && maxChunks == None
    {
      ethereumData, maxGasAllowance, maxChunks := null, None, None;
    }

    method SetEthereumDataBytes(bytes: seq<byte>) returns (r: Result<(), FlowError>)
      modifies this`ethereumData
      ensures r.Ok? <==> FromBytes(bytes).Ok?
      ensures r.Ok? ==> ethereumData != null && fresh(ethereumData) && Ok(ethereumData.tx) == FromBytes(bytes)
      ensures r.Err? ==> ethereumData == old(ethereumData)
    {
      match FromBytes(bytes)
      case Ok(tx) =>
        ethereumData := new DataObject(tx);
        r := Ok(());
      case Err(e) =>
        r := Err(Undecodable(e));
    }

    method Execute(client: Client) returns (r: Result<(), FlowError>)
      requires ethereumData != null ==> Encodable(ethereumData.tx)
      modifies client, ethereumData
      ensures ethereumData == old(ethereumData)
      ensures r.Ok? <==> (ethereumData != null &&
        (Inline(old(ethereumData.tx)) || CreateFileSucceeds(old(ethereumData.tx.callData), maxChunks)))
      ensures r.Err? ==> client.submitted == old(client.submitted)
      ensures ethereumData == null ==> r == Err(NoEthereumData) && client.files == old(client.files)
      ensures ethereumData != null && r.Err? ==>
        && r.error == TooManyChunks(if maxChunks.Some? then maxChunks.value else 20)
        && ethereumData.tx == old(ethereumData.tx)
        && client.files == old(client.files) + [Take(HexEncode(old(ethereumData.tx.callData)), FIRST_CHUNK)]
      // small transactions go out whole and leave everything else alone
      ensures r.Ok? && Inline(old(ethereumData.tx)) ==>
        && ethereumData.tx == old(ethereumData.tx) && client.files == old(client.files)
        && client.submitted == old(client.submitted) + [Submission(ToBytes(ethereumData.tx), maxGasAllowance, None)]
      // large ones go out without call data, which is in a new file; the data object has lost it
      ensures r.Ok? && !Inline(old(ethereumData.tx)) ==>
        && ethereumData.tx == WithoutCallData(old(ethereumData.tx)) && Encodable(ethereumData.tx)
        && client.files == old(client.files) + [StoredContents(old(ethereumData.tx.callData))]
        && client.submitted == old(client.submitted)
             + [Submission(ToBytes(ethereumData.tx), maxGasAllowance, Some(|old(client.files)|))]
    {
      if ethereumData == null {
        return Err(NoEthereumData);
      }
      var bytes := ToBytes(ethereumData.tx);
      var submission := Submission(bytes, maxGasAllowance, None);
      if |bytes| > INLINE_LIMIT {
        var created := CreateFile(ethereumData.tx.callData, client, maxChunks);
        if created.Err? {
          return Err(created.error);
        }
        ShorterEncodable(ethereumData.tx);
        ethereumData.tx := ethereumData.tx.(callData := []);
        submission := Submission(ToBytes(ethereumData.tx), maxGasAllowance, Some(created.value));
      }
      client.submitted := client.submitted + [submission];
      r := Ok(());
    }
  }

  // ---- sizes ----

  /** Encoded size of all fields but the call data. */
  function OtherLen(tx: TxData): nat { LenAll(FieldsBefore(tx)) + LenAll(FieldsAfter(tx)) }

  lemma PayloadLen(tx: TxData)
    ensures LenAll(Fields(tx)) == OtherLen(tx) + BytesLen(tx.callData)
  {
    LenAllConcat(FieldsBefore(tx) + [Bytes(tx.callData)], FieldsAfter(tx));
    LenAllConcat(FieldsBefore(tx), [Bytes(tx.callData)]);
    assert [Bytes(tx.callData)][1..] == [];
  }

  lemma TotalLen(tx: TxData) returns (payload: nat, total: nat)
    requires Encodable(tx)
    ensures payload == OtherLen(tx) + BytesLen(tx.callData)
    ensures total == |ToBytes(tx)| == |TypePrefix(tx)| + HeaderSize(payload) + payload
  {
    payload, total := OtherLen(tx) + BytesLen(tx.callData), |ToBytes(tx)|;
    ToBytesIs(tx);
    PayloadLen(tx);
  }

  lemma {:induction false} LengthSizeMonotone(m: nat, n: nat)
    requires m <= n
    ensures LengthSize(m) <= LengthSize(n)
  {
    if m > 0 { LengthSizeMonotone(m / 256, n / 256); }
  }

  lemma HeaderMonotone(m: nat, n: nat)
    requires m <= n
    ensures HeaderSize(m) <= HeaderSize(n)
  {
    LengthSizeMonotone(m, n);
  }

  /** Taking the call data out leaves something RLP can still encode. */
  lemma ShorterEncodable(tx: TxData)
    requires Encodable(tx)
    ensures Encodable(WithoutCallData(tx))
  {
    var less := WithoutCallData(tx);
    assert FieldsBefore(less) == FieldsBefore(tx) && FieldsAfter(less) == FieldsAfter(tx);
    PayloadLen(tx);
    PayloadLen(less);
    HeaderMonotone(LenAll(Fields(less)), LenAll(Fields(tx)));
  }

  lemma TwoByteHeader(n: nat)
    requires n < 65536
    ensures HeaderSize(n) <= 3 && (n >= 256 ==> HeaderSize(n) == 3)
  {
    assert n / 256 < 256;
    assert LengthSize(n) == if n == 0 then 0 else 1 + LengthSize(n / 256);
    assert LengthSize(n / 256) == if n / 256 == 0 then 0 else 1 + LengthSize(n / 256 / 256);
    assert LengthSize(0) == 0;
  }

  /** The most the other fields can take if no call data is ever to be lost; a type byte counts. */
  function SafeOtherLen(tx: TxData): nat { if tx.Legacy? then 1018 else 1017 }

  /** When the other fields take no more than that, only call data over 4096 bytes goes to a file. */
  lemma FileMeansLongCallData(tx: TxData)
    requires Encodable(tx) && OtherLen(tx) <= SafeOtherLen(tx) && !Inline(tx)
    ensures |tx.callData| > 4096
  {
    var payload, total := TotalLen(tx);
    if |tx.callData| <= 4096 {
      TwoByteHeader(|tx.callData|);
      TwoByteHeader(payload);
      assert false;
    }
  }

  // ---- when the file can be written ----

  /**
    How much call data a flow can move to a file: 21 times 2048 bytes unless it was given a limit of its
    own, of k chunks after the first 4096 characters; a limit of zero is none.
   */
  predicate Fits(size: nat, maxChunks: Option<nat>) {
    match maxChunks
    case None => size <= 43008
    case Some(k) => k == 0 || size <= 4096 || 2 * size <= 4096 * (k + 1)
  }

  lemma ChunksNeeded(size: nat, k: nat)
    requires k > 0
    ensures (size + 4095) / 4096 <= k <==> size <= 4096 * k
  {
  }

  /** A flow succeeds in writing the file exactly for call data that fits. */
  lemma CreateFileIff(callData: seq<byte>, maxChunks: Option<nat>)
    ensures CreateFileSucceeds(callData, maxChunks) <==> Fits(|callData|, maxChunks)
  {
    HexLength(callData);
    if |callData| > 4096 {
      var more := 2 * |callData| - 4096;
      assert |Drop(HexEncode(callData), 4096)| == more;
      ChunksNeeded(more, 20);
      if maxChunks.Some? && maxChunks.value > 0 { ChunksNeeded(more, maxChunks.value); }
    }
  }

  // ---- nothing is lost ----

  /** The transaction a receiver puts together from the submitted bytes and the file. */
  function Rebuild(data: seq<byte>, contents: string): Result<TxData, DecodeError> {
    match FromBytes(data)
    case Ok(tx) => Ok(tx.(callData := HexDecode(contents)))
    case Err(e) => Err(e)
  }

  lemma {:induction false} HexPairsBound(text: string)
    ensures 2 * |HexPairs(text)| <= |text|
  {
    if |text| >= 2 { HexPairsBound(text[2..]); }
  }

  /** The file holds the whole call data exactly when it is at most 2048 bytes or more than 4096. */
  lemma StoredIff(callData: seq<byte>)
    ensures HexDecode(StoredContents(callData)) == callData <==> |callData| <= 2048 || |callData| > 4096
    ensures StoredContents(callData) == HexEncode(callData) <==> |callData| <= 2048 || |callData| > 4096
  {
    HexLength(callData);
    HexRoundTrip(callData);
    var stored := StoredContents(callData);
    HexPairsBound(stored);
    HexPairsBound(if StartsWith0x(stored) then stored[2..] else stored);
  }

  /** In between, the file decodes to the first 2048 bytes. */
  lemma StoredHalf(callData: seq<byte>)
    requires 2048 < |callData| <= 4096
    ensures HexDecode(StoredContents(callData)) == callData[..2048]
  {
    var kept, lost := callData[..2048], callData[2048..];
    assert callData == kept + lost;
    HexConcat(kept, lost);
    HexLength(kept);
    HexLength(callData);
    assert StoredContents(callData) == HexEncode(kept);
    HexRoundTrip(kept);
  }

  /**
    The file branch loses nothing exactly when the call data is at most 2048 bytes or more than 4096:
    in between, the file is cut at 4096 hex characters and the append is skipped.
   */
  lemma FileBranchLosslessIff(tx: TxData)
    requires Encodable(tx)
    ensures Encodable(WithoutCallData(tx))
    ensures Rebuild(ToBytes(WithoutCallData(tx)), StoredContents(tx.callData)) == Ok(tx) <==>
      |tx.callData| <= 2048 || |tx.callData| > 4096
  {
    ShorterEncodable(tx);
    EthereumData.RoundTrip(WithoutCallData(tx));
    StoredIff(tx.callData);
  }

  /** With other fields of at most 1017 bytes together, 1018 without a type byte, the file branch loses nothing. */
  lemma FileBranchLossless(tx: TxData)
    requires Encodable(tx) && OtherLen(tx) <= SafeOtherLen(tx) && !Inline(tx)
    ensures Encodable(WithoutCallData(tx))
    ensures StoredContents(tx.callData) == HexEncode(tx.callData)
    ensures Rebuild(ToBytes(WithoutCallData(tx)), StoredContents(tx.callData)) == Ok(tx)
  {
    FileMeansLongCallData(tx);
    FileBranchLosslessIff(tx);
    StoredIff(tx.callData);
  }

  /** One byte more, and 4096 bytes of call data lose half of them. */
  lemma HalfLost(tx: TxData)
    requires Encodable(tx) && OtherLen(tx) > SafeOtherLen(tx) && |tx.callData| == 4096
    ensures CallDataLost(tx)
  {
    NotInline(tx);
    FileBranchLosslessIff(tx);
  }

  lemma NotInline(tx: TxData)
    requires Encodable(tx) && OtherLen(tx) > SafeOtherLen(tx) && |tx.callData| == 4096
    ensures !Inline(tx)
  {
    LongBytes(tx.callData);
    var payload, total := TotalLen(tx);
    PrefixAndHeader(tx, payload, total);
  }

  lemma PrefixAndHeader(tx: TxData, payload: nat, total: nat)
    requires total == |TypePrefix(tx)| + HeaderSize(payload) + payload && payload >= 256
    ensures total >= (if tx.Legacy? then 0 else 1) + 3 + payload
  {
    LongHeader(payload);
  }

  lemma LongBytes(data: seq<byte>)
    requires |data| == 4096
    ensures BytesLen(data) >= 4099
  {
    LongHeader(4096);
  }

  lemma LongHeader(n: nat)
    requires n >= 256
    ensures HeaderSize(n) >= 3
  {
    LengthSizeMonotone(1, n / 256);
    assert LengthSize(1) >= 1;
  }

  /** The transaction takes the file branch, and what arrives is not that transaction. */
  predicate CallDataLost(tx: TxData) {
    && Encodable(tx) && !Inline(tx) && Encodable(WithoutCallData(tx))
    && Rebuild(ToBytes(WithoutCallData(tx)), StoredContents(tx.callData)) != Ok(tx)
  }

  function WithCallData(tx: TxData, callData: seq<byte>): TxData { tx.(callData := callData) }

  function Filler(n: nat): (d: seq<byte>)
    ensures |d| == n
  {
    seq(n, i => 0)
  }

  /**
    Some call data would be lost with these other fields exactly when they take more than 1017 encoded
    bytes, or 1018 in a legacy transaction.
   */
  lemma CallDataAtRiskIff(tx: TxData)
    requires Encodable(WithCallData(tx, Filler(4096)))
    ensures (exists d: seq<byte> :: CallDataLost(WithCallData(tx, d))) <==> OtherLen(tx) > SafeOtherLen(tx)
  {
    forall d: seq<byte> | CallDataLost(WithCallData(tx, d)) ensures OtherLen(tx) > SafeOtherLen(tx) {
      SameOtherLen(tx, d);
      if OtherLen(tx) <= SafeOtherLen(tx) { FileBranchLossless(WithCallData(tx, d)); }
    }
    if OtherLen(tx) > SafeOtherLen(tx) {
      SameOtherLen(tx, Filler(4096));
      HalfLost(WithCallData(tx, Filler(4096)));
    }
  }

  lemma SameOtherLen(tx: TxData, d: seq<byte>)
    ensures OtherLen(WithCallData(tx, d)) == OtherLen(tx) && SafeOtherLen(WithCallData(tx, d)) == SafeOtherLen(tx)
  {
    var other := WithCallData(tx, d);
    assert FieldsBefore(other) == FieldsBefore(tx) && FieldsAfter(other) == FieldsAfter(tx);
  }

  // ---- what a receiver makes of what was submitted ----

  /** The transaction a submission stands for, with its call data taken from the file it names. */
  function Received(submission: Submission, files: seq<string>): Result<TxData, DecodeError> {
    match submission.callDataFile
    case None => FromBytes(submission.data)
    case Some(f) => Rebuild(submission.data, if f < |files| then files[f] else "")
  }

  /** Small transactions, and those whose call data the file holds whole, arrive as they were. */
  predicate Arrives(tx: TxData)
    requires Encodable(tx)
  {
    Inline(tx) || |tx.callData| <= 2048 || |tx.callData| > 4096
  }

  /** With the default limit and other fields of at most 1017 bytes, 43008 bytes of call data always arrive whole. */
  lemma DefaultFlowDelivers(tx: TxData)
    requires Encodable(tx) && OtherLen(tx) <= SafeOtherLen(tx)
    ensures Accepted(tx, None) && Arrives(tx) <==> |tx.callData| <= 43008
  {
    var payload, total := TotalLen(tx);
    if !Inline(tx) {
      FileMeansLongCallData(tx);
    } else {
      assert BytesLen(tx.callData) >= |tx.callData|;
    }
  }

  /** The submission and the files are what executing a flow with this transaction leaves. */
  predicate Carries(submission: Submission, files: seq<string>, tx: TxData)
    requires Encodable(tx)
  {
    if Inline(tx) then submission.data == ToBytes(tx) && submission.callDataFile == None
    else
      && Encodable(WithoutCallData(tx)) && submission.data == ToBytes(WithoutCallData(tx))
      && submission.callDataFile.Some? && submission.callDataFile.value < |files|
      && files[submission.callDataFile.value] == StoredContents(tx.callData)
  }

  /** What the caller's data object holds after an execution. */
  function Left(tx: TxData): TxData
    requires Encodable(tx)
  {
    if Inline(tx) then tx else WithoutCallData(tx)
  }

  /** Small enough to go out whole, or with call data that fits a file. */
  predicate Accepted(tx: TxData, maxChunks: Option<nat>)
    requires Encodable(tx)
  {
    |ToBytes(tx)| <= 5120 || Fits(|tx.callData|, maxChunks)
  }

  lemma ArrivesIff(submission: Submission, files: seq<string>, tx: TxData)
    requires Encodable(tx) && Carries(submission, files, tx)
    ensures Received(submission, files) == Ok(tx) <==> Arrives(tx)
  {
    EthereumData.RoundTrip(tx);
    FileBranchLosslessIff(tx);
  }

  lemma CarriesLonger(submission: Submission, files: seq<string>, more: seq<string>, tx: TxData)
    requires Encodable(tx) && Carries(submission, files, tx) && files <= more
    ensures Carries(submission, more, tx)
  {
  }

  /** An execution, with what it submitted. */
  method ExecuteOnce(flow: Flow, client: Client) returns (r: Result<(), FlowError>, ghost sent: Submission)
    requires flow.ethereumData != null && Encodable(flow.ethereumData.tx)
    modifies client, flow.ethereumData
    ensures flow.ethereumData == old(flow.ethereumData) && Encodable(flow.ethereumData.tx)
    ensures r.Ok? <==> Accepted(old(flow.ethereumData.tx), flow.maxChunks)
    ensures r.Ok? ==> client.submitted == old(client.submitted) + [sent] && old(client.files) <= client.files
    ensures r.Ok? ==> Carries(sent, client.files, old(flow.ethereumData.tx))
    ensures flow.ethereumData.tx == if r.Ok? then Left(old(flow.ethereumData.tx)) else old(flow.ethereumData.tx)
    ensures r.Err? ==> client.submitted == old(client.submitted)
  {
    CreateFileIff(flow.ethereumData.tx.callData, flow.maxChunks);
    r := flow.Execute(client);
    if r.Ok? {
      sent := client.submitted[|client.submitted| - 1];
    } else {
      sent := Submission([], None, None);
    }
  }

  /**
    Two executions of one flow in a row. The first submission stands for the caller's transaction
    exactly when that was small or its call data is not of 2049 to 4096 bytes. The second stands for
    it exactly when it was small or had no call data: otherwise the first has emptied the data object.
   */
  method ExecuteTwice(flow: Flow, client: Client) returns (first: Result<(), FlowError>, second: Result<(), FlowError>)
    requires flow.ethereumData != null && Encodable(flow.ethereumData.tx)
    modifies client, flow.ethereumData
    ensures flow.ethereumData == old(flow.ethereumData)
    ensures first.Ok? <==> second.Ok?
    ensures first.Ok? <==> Accepted(old(flow.ethereumData.tx), flow.maxChunks)
    ensures first.Err? ==> client.submitted == old(client.submitted)
    ensures first.Ok? ==> var n := |old(client.submitted)|;
      && |client.submitted| == n + 2 && client.submitted[..n] == old(client.submitted)
      && (Received(client.submitted[n], client.files) == Ok(old(flow.ethereumData.tx))
          <==> Arrives(old(flow.ethereumData.tx)))
      && (Received(client.submitted[n + 1], client.files) == Ok(old(flow.ethereumData.tx))
          <==> Inline(old(flow.ethereumData.tx)) || old(flow.ethereumData.tx.callData) == [])
  {
    ghost var tx := flow.ethereumData.tx;
    ghost var one, two;
    first, one := ExecuteOnce(flow, client);
    ghost var next, files := flow.ethereumData.tx, client.files;
    second, two := ExecuteOnce(flow, client);
    if first.Ok? {
      CarriesLonger(one, files, client.files, tx);
      ArrivesIff(one, client.files, tx);
      ArrivesIff(two, client.files, next);
    }
  }

  // ---- a transaction that is cut short ----

  /** A typed transaction with a long recipient field, empty otherwise but for its 4096 bytes of call data. */
  function LongRecipient(): TxData { Eip2930([], [], [], [], Filler(1006), [], Filler(4096), [], [], [], []) }

  lemma LenAllCons(x: Item, rest: seq<Item>)
    ensures LenAll([x] + rest) == Len(x) + LenAll(rest)
  {
    assert ([x] + rest)[1..] == rest;
  }

  const EMPTY: Item := Bytes([])

  lemma {:induction false} EmptyFields(n: nat)
    ensures LenAll(seq(n, i => EMPTY)) == n
  {
    if n > 0 {
      EmptyFields(n - 1);
      assert seq(n, i => EMPTY)[1..] == seq(n - 1, i => EMPTY);
    }
  }

  lemma LongRecipientBefore()
    ensures LenAll(FieldsBefore(LongRecipient())) == 1014
  {
    var to := Bytes(Filler(1006));
    TwoByteHeader(1006);
    EmptyFields(4);
    EmptyFields(1);
    LenAllCons(to, seq(1, i => EMPTY));
    LenAllConcat(seq(4, i => EMPTY), [to] + seq(1, i => EMPTY));
    assert FieldsBefore(LongRecipient()) == seq(4, i => EMPTY) + ([to] + seq(1, i => EMPTY));
  }

  lemma LongRecipientAfter()
    ensures LenAll(FieldsAfter(LongRecipient())) == 4
  {
    EmptyFields(3);
    assert Len(AccessItem([])) == 1;
    LenAllCons(AccessItem([]), seq(3, i => EMPTY));
    assert FieldsAfter(LongRecipient()) == [AccessItem([])] + seq(3, i => EMPTY);
  }

  lemma LongRecipientSizes()
    ensures Encodable(LongRecipient()) && OtherLen(LongRecipient()) == 1018
  {
    LongRecipientBefore();
    LongRecipientAfter();
    TwoByteHeader(4096);
    PayloadLen(LongRecipient());
    TwoByteHeader(LenAll(Fields(LongRecipient())));
  }

  /** Set from its own bytes and executed, the flow submits something that no longer stands for it. */
  method CutShort() returns (client: Client)
    ensures fresh(client) && |client.submitted| == 1
    ensures Encodable(LongRecipient()) && FromBytes(ToBytes(LongRecipient())) == Ok(LongRecipient())
    ensures Received(client.submitted[0], client.files) != Ok(LongRecipient())
  {
    LongRecipientSizes();
    client := new Client();
    var flow := new Flow();
    var tx := LongRecipient();
    EthereumData.RoundTrip(tx);
    NotInline(tx);
    var decoded := flow.SetEthereumDataBytes(ToBytes(tx));
    var done := flow.Execute(client);
    ArrivesIff(client.submitted[0], client.files, tx);
  }
}
