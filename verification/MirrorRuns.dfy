/** How long the header goes on showing the selected queue: the front end writes a value into the header itself and
    then has it processed, while the back end refreshes the queue's fields only on a selection. */
module MirrorRuns {
  import opened Words
  import opened CommonCfg
  import opened CommonRuns
  import opened SharedHeader

  const TAIL: nat := COMMON + Q_SIZE

  predicate InTail(r: nat) {
    Q_SIZE <= r && Width(r) > 0
  }

  /** The header shows what reads of the queue registers give. */
  ghost predicate Right(h: Bytes, b: Base) {
    Mirrors(h, b, CONFIG - COMMON)
  }

  /** The front end has stored the value of `w` in its place and described the transaction, and nothing else. */
  ghost predicate FrontWrites(h: Bytes, h': Bytes, w: Write) {
    && |h'| == |h| && w.size in {1, 2, 4} && w.offset < CONFIG - COMMON
    && Load(h', TRANSACTION, 2) == COMMON + w.offset && Load(h', TRANSACTION + 2, 2) == w.size
    && Load(h', COMMON + w.offset, w.size) == w.value
    && forall i :: 0 <= i < |h| ==>
         h'[i] == h[i] || TRANSACTION <= i < TRANSACTION + 4 || COMMON + w.offset <= i < COMMON + w.offset + w.size
  }

  lemma TransactionIs(h: Bytes, h': Bytes, w: Write)
    requires FrontWrites(h, h', w)
    ensures InCommon(h') && Transaction(h') == w
  {
  }

  /** The front end's write leaves the queue fields' bytes as they were. */
  ghost predicate SameTail(h: Bytes, h': Bytes)
    requires |h| == |h'|
  {
    forall i :: TAIL <= i < CONFIG ==> h'[i] == h[i]
  }

  ghost predicate ShowsSame(b: Base, b': Base) {
    forall r: nat :: InTail(r) ==> Read(b', r, Width(r)) == Read(b, r, Width(r))
  }

  /** Numbers of equal length are equal only if their bytes are. */
  lemma {:induction false} ValueInjective(s: seq<u8>, t: seq<u8>)
    requires |s| == |t| && Value(s) == Value(t)
    ensures s == t
    decreases |s|
  {
    if s != [] {
      ValueInjective(s[1..], t[1..]);
      assert s == [s[0]] + s[1..] && t == [t[0]] + t[1..];
    }
  }

  lemma LoadInjective(h: seq<u8>, h': seq<u8>, at: nat, n: nat)
    requires at + n <= |h| == |h'| && Load(h, at, n) == Load(h', at, n)
    ensures forall i :: at <= i < at + n ==> h'[i] == h[i]
  {
    ValueInjective(h[at..at + n], h'[at..at + n]);
    forall i | at <= i < at + n
      ensures h'[i] == h[i]
    {
      assert h[at..at + n][i - at] == h'[at..at + n][i - at];
    }
  }

  /** The register that byte `k` of the common configuration belongs to. */
  function RegOf(k: nat): (r: nat)
    requires Q_SIZE <= k < CONFIG - COMMON
    ensures InTail(r) && r <= k < r + Width(r) <= CONFIG - COMMON
  {
    if k < Q_DESCLO then k - k % 2 else k - k % 4
  }

  /** Two headers that both show the queue have the same bytes there. */
  lemma RightIsUnique(h: Bytes, h': Bytes, b: Base)
    requires |h| == |h'| && Right(h, b) && Right(h', b)
    ensures SameTail(h, h')
  {
    forall i | TAIL <= i < CONFIG
      ensures h'[i] == h[i]
    {
      var r := RegOf(i - COMMON);
      LoadInjective(h, h', COMMON + r, Width(r));
    }
  }

  lemma SameTailRight(h: Bytes, h': Bytes, b: Base)
    requires |h| == |h'| && SameTail(h, h')
    ensures Right(h, b) <==> Right(h', b)
  {
    forall r: nat | InTail(r) && r + Width(r) <= CONFIG - COMMON
      ensures Load(h', COMMON + r, Width(r)) == Load(h, COMMON + r, Width(r))
    {
      LoadSame(h, h', COMMON + r, Width(r));
    }
  }

  /** A write that reaches a register of the selected queue or would if one were selected. */
  predicate Reaches(w: Write) {
    Effective(w) && IsQueueReg(w.offset)
  }

  /** Whether the header is still right after write `w`, which took it from `h` to `h'` and is about to be
      processed: a selection makes it right; a reset keeps it if the registers shown do not change; a write that
      reaches a queue register keeps it if the register reads back as written; any other write keeps it if it
      stores nothing new in the queue fields. */
  ghost predicate StaysRight(b: Base, h: Bytes, h': Bytes, w: Write)
    requires |h| == |h'|
  {
    if w.offset == Q_SELECT then true
    else if Resets(w) then ShowsSame(b, Written(b, w))
    else if Reaches(w) then Read(Written(b, w), w.offset, w.size) == w.value
    else SameTail(h, h')
  }

  lemma ShowsSameRight(h: Bytes, b: Base, b': Base)
    requires ShowsSame(b, b')
    ensures Right(h, b) <==> Right(h, b')
  {
  }

  /** A write that neither resets, selects nor reaches a queue register changes nothing that is shown. */
  lemma OthersShowSame(b: Base, w: Write)
    requires !Resets(w) && w.offset != Q_SELECT && !Reaches(w)
    ensures ShowsSame(b, Written(b, w))
  {
    forall r: nat | InTail(r)
      ensures Read(Written(b, w), r, Width(r)) == Read(b, r, Width(r))
    {
    }
  }

  /** A write to a queue register changes what is shown of that register only. */
  lemma ReachesOne(b: Base, w: Write, r: nat)
    requires Reaches(w) && InTail(r) && r != w.offset
    ensures Read(Written(b, w), r, Width(r)) == Read(b, r, Width(r))
  {
  }

  /** Registers do not overlap. */
  lemma RegistersApart(r: nat, t: nat)
    requires Width(r) > 0 && Width(t) > 0 && r != t
    ensures r + Width(r) <= t || t + Width(t) <= r
  {
  }

  lemma ReachedRight(b: Base, h: Bytes, h': Bytes, w: Write)
    requires FrontWrites(h, h', w) && Right(h, b) && Reaches(w)
    ensures Right(h', Written(b, w)) <==> Read(Written(b, w), w.offset, w.size) == w.value
  {
    forall r: nat | InTail(r) && r + Width(r) <= CONFIG - COMMON && r != w.offset
      ensures Load(h', COMMON + r, Width(r)) == Read(Written(b, w), r, Width(r))
    {
      RegistersApart(r, w.offset);
      LoadSame(h, h', COMMON + r, Width(r));
      ReachesOne(b, w, r);
    }
    assert InTail(w.offset) && w.offset + Width(w.offset) <= CONFIG - COMMON;
  }

  lemma UnreachedRight(b: Base, h: Bytes, h': Bytes, w: Write)
    requires FrontWrites(h, h', w) && Right(h, b) && !Resets(w) && w.offset != Q_SELECT && !Reaches(w)
    ensures Right(h', Written(b, w)) <==> SameTail(h, h')
  {
    OthersShowSame(b, w);
    ShowsSameRight(h', b, Written(b, w));
    if Right(h', b) {
      RightIsUnique(h, h', b);
    } else if SameTail(h, h') {
      SameTailRight(h, h', b);
    }
  }

  lemma ResetRight(b: Base, h: Bytes, h': Bytes, w: Write)
    requires FrontWrites(h, h', w) && Right(h, b) && Resets(w)
    ensures Right(h', Written(b, w)) <==> ShowsSame(b, Written(b, w))
  {
    assert SameTail(h, h');
    SameTailRight(h, h', b);
    if Right(h', Written(b, w)) {
      forall r: nat | InTail(r)
        ensures Read(Written(b, w), r, Width(r)) == Read(b, r, Width(r))
      {
        assert r + Width(r) <= CONFIG - COMMON;
      }
    } else {
      assert !ShowsSame(b, Written(b, w)) by {
        if ShowsSame(b, Written(b, w)) {
          ShowsSameRight(h', b, Written(b, w));
        }
      }
    }
  }

  /** Processing touches no queue field unless the write selects. */
  lemma ProcessedTail(h: Bytes, h': Bytes, b: Base)
    requires InCommon(h) && HeaderAfter(h, h', b) && Transaction(h).offset != Q_SELECT
    ensures SameTail(h, h')
  {
    forall i | TAIL <= i < CONFIG
      ensures h'[i] == h[i]
    {
      assert !Refreshes(h, i - COMMON);
    }
  }

  /** One write: a header that was right is right afterwards if and only if the condition holds, and a selection
      makes any header right. */
  lemma StepRightIff(b: Base, h: Bytes, h1: Bytes, h2: Bytes, w: Write)
    requires FrontWrites(h, h1, w) && HeaderAfter(h1, h2, Written(b, w))
    ensures w.offset == Q_SELECT ==> Right(h2, Written(b, w))
    ensures Right(h, b) ==> (Right(h2, Written(b, w)) <==> StaysRight(b, h, h1, w))
  {
    TransactionIs(h, h1, w);
    if w.offset != Q_SELECT {
      ProcessedTail(h1, h2, Written(b, w));
      SameTailRight(h1, h2, Written(b, w));
      if Right(h, b) {
        if Resets(w) {
          ResetRight(b, h, h1, w);
        } else if Reaches(w) {
          ReachedRight(b, h, h1, w);
        } else {
          UnreachedRight(b, h, h1, w);
        }
      }
    }
  }

  /** A write, the header as the front end leaves it, and the header once it has been processed. */
  datatype Exchange = Exchange(w: Write, stored: Bytes, processed: Bytes)

  ghost predicate Exchanges(b: Base, h: Bytes, xs: seq<Exchange>)
    decreases |xs|
  {
    |xs| > 0 ==>
      && FrontWrites(h, xs[0].stored, xs[0].w)
      && HeaderAfter(xs[0].stored, xs[0].processed, Written(b, xs[0].w))
      && Exchanges(Written(b, xs[0].w), xs[0].processed, xs[1..])
  }

  /** The header is right after every exchange. */
  ghost predicate RightThroughout(b: Base, h: Bytes, xs: seq<Exchange>)
    decreases |xs|
  {
    Right(h, b) && (|xs| > 0 ==> RightThroughout(Written(b, xs[0].w), xs[0].processed, xs[1..]))
  }

  /** No write spoils it. */
  ghost predicate NeverSpoilt(b: Base, h: Bytes, xs: seq<Exchange>)
    requires Exchanges(b, h, xs)
    decreases |xs|
  {
    |xs| > 0 ==>
      StaysRight(b, h, xs[0].stored, xs[0].w) && NeverSpoilt(Written(b, xs[0].w), xs[0].processed, xs[1..])
  }

  /** Over every run that starts with a right header, the header is right after each exchange if and only if no
      write spoils it. */
  lemma {:induction false} RunRightIff(b: Base, h: Bytes, xs: seq<Exchange>)
    requires Exchanges(b, h, xs) && Right(h, b)
    ensures RightThroughout(b, h, xs) <==> NeverSpoilt(b, h, xs)
    decreases |xs|
  {
    if |xs| > 0 {
      var x := xs[0];
      StepRightIff(b, h, x.stored, x.processed, x.w);
      if Right(x.processed, Written(b, x.w)) {
        RunRightIff(Written(b, x.w), x.processed, xs[1..]);
      } else {
        assert !RightThroughout(Written(b, x.w), x.processed, xs[1..]);
      }
    }
  }

  /** A write of the right width to an address, vector or size register of a queue that exists is shown at once. */
  lemma ValueWritesKeepRight(b: Base, h: Bytes, h': Bytes, w: Write)
    requires FrontWrites(h, h', w) && Reaches(w) && w.offset != Q_ENABLE && b.curq < |b.queues|
    ensures StaysRight(b, h, h', w)
  {
  }

  /** What a queue register shows right after a reset. */
  function ShownAfterReset(b: Base, r: nat): nat {
    if r == Q_NOFF then 0
    else if r == Q_SIZE then (if |b.queues| > 0 then b.queues[0].qsize else 0)
    else Default(r)
  }

  /** A reset keeps the header right if and only if the queue selected before shows what queue 0 shows afterwards:
      nothing but defaults, and queue 0's size. */
  lemma ResetKeepsRightIff(b: Base, h: Bytes, h': Bytes, w: Write)
    requires |h| == |h'| && Resets(w)
    ensures StaysRight(b, h, h', w) <==> forall r: nat :: InTail(r) ==> Read(b, r, Width(r)) == ShownAfterReset(b, r)
  {
    forall r: nat | InTail(r)
      ensures Read(Written(b, w), r, Width(r)) == ShownAfterReset(b, r)
    {
    }
  }
}
