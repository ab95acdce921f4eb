/**
 * The pure specification of `decode_video` in stegano/server.py: which frames are tried,
 * which of them contribute text, how the texts are joined, and which value is returned.
 *
 * The video, the bit codec and the RSA layer are parameters:
 *  - `read(i)` is the outcome of seeking to frame `i` and reading it (`None` when `ret` is false);
 *  - `revealFrame(i, frame)` is the outcome of the LSB reveal on frame `i` as written to its temporary file (`None` when it raises or finds nothing);
 *  - `decrypt(text)` is RSA decryption followed by UTF-8 decoding (`None` when either raises).
 */
module Reassembly {
  import opened Wrappers

  /** `frames_to_check = list(range(15))`: the fixed candidate window. */
  const FramesToCheck: nat := 15

  /** How many candidate frames are actually read: those of `range(15)` below the reported count. */
  function WindowSize(frameCount: int): nat
  {
    if frameCount <= 0 then 0
    else if frameCount < FramesToCheck then frameCount
    else FramesToCheck
  }

  /** The frame indices `0, 1, ..., k-1`, in ascending order. */
  function Prefix(k: nat): seq<nat>
  {
    seq(k, j => j)
  }

  /** The frames that are seeked to and read, in the order the scan visits them. */
  function Window(frameCount: int): (w: seq<nat>)
    ensures forall j :: 0 <= j < |w| ==> w[j] == j && w[j] < frameCount
    ensures frameCount >= FramesToCheck ==> |w| == FramesToCheck
    ensures frameCount < FramesToCheck ==> |w| as int == if frameCount <= 0 then 0 else frameCount
  {
    Prefix(WindowSize(frameCount))
  }

  /** What frame `i` stores in the `decoded` dictionary: nothing when the read fails, the reveal raises, or the revealed text is empty. */
  function Chunk<Image>(read: nat -> Option<Image>, revealFrame: (nat, Image) -> Option<string>, i: nat): (c: Option<string>)
    ensures c.Some? ==> c.value != ""
  {
    match read(i)
    case None => None
    case Some(frame) =>
      match revealFrame(i, frame)
      case None => None
      case Some(text) => if text == "" then None else Some(text)
  }

  /** The text frame `i` adds to the message: its chunk, or nothing. */
  function TextAt<Image>(read: nat -> Option<Image>, revealFrame: (nat, Image) -> Option<string>, i: nat): string
  {
    match Chunk(read, revealFrame, i)
    case Some(text) => text
    case None => ""
  }

  /** The texts of frames `0..k-1` joined in visit order. */
  function TextBelow<Image>(read: nat -> Option<Image>, revealFrame: (nat, Image) -> Option<string>, k: nat): string
  {
    if k == 0 then "" else TextBelow(read, revealFrame, k - 1) + TextAt(read, revealFrame, k - 1)
  }

  /** The reassembled candidate ciphertext `res`. */
  function Reassembled<Image>(frameCount: int, read: nat -> Option<Image>, revealFrame: (nat, Image) -> Option<string>): (res: string)
    ensures res == "" <==> Carriers(frameCount, read, revealFrame) == []
  {
    TextBelowEmpty(read, revealFrame, WindowSize(frameCount));
    TextBelow(read, revealFrame, WindowSize(frameCount))
  }

  /** The frames among `0..k-1` that store a chunk, ascending. */
  function CarriersBelow<Image>(read: nat -> Option<Image>, revealFrame: (nat, Image) -> Option<string>, k: nat): seq<nat>
  {
    if k == 0 then []
    else CarriersBelow(read, revealFrame, k - 1) + (if Chunk(read, revealFrame, k - 1).Some? then [k - 1] else [])
  }

  /** The frames of the window that store a chunk, ascending. */
  function Carriers<Image>(frameCount: int, read: nat -> Option<Image>, revealFrame: (nat, Image) -> Option<string>): seq<nat>
  {
    CarriersBelow(read, revealFrame, WindowSize(frameCount))
  }

  /** The `decoded` dictionary after the frames `0..k-1` have been tried. */
  ghost function StoredBelow<Image>(read: nat -> Option<Image>, revealFrame: (nat, Image) -> Option<string>, k: nat): map<nat, string>
  {
    map i: nat | i < k && Chunk(read, revealFrame, i).Some? :: Chunk(read, revealFrame, i).value
  }

  /** The `decoded` dictionary when the scan loop ends. */
  ghost function Stored<Image>(frameCount: int, read: nat -> Option<Image>, revealFrame: (nat, Image) -> Option<string>): (m: map<nat, string>)
    ensures forall i :: i in m ==> i < FramesToCheck && i < frameCount && m[i] != ""
  {
    StoredBelow(read, revealFrame, WindowSize(frameCount))
  }

  /** What `decode_video` returns: `None` when nothing was recovered, else the plaintext, or the raw text when decryption fails. */
  function Decode<Image>(frameCount: int, read: nat -> Option<Image>, revealFrame: (nat, Image) -> Option<string>,
                         decrypt: string -> Option<string>): (r: Option<string>)
    ensures r.None? <==> Carriers(frameCount, read, revealFrame) == []
  {
    var res := Reassembled(frameCount, read, revealFrame);
    if res == "" then None
    else
      match decrypt(res)
      case Some(plain) => Some(plain)
      case None => Some(res)
  }

  predicate StrictlyIncreasing(s: seq<nat>)
  {
    forall i, j :: 0 <= i < j < |s| ==> s[i] < s[j]
  }

  /** The values of `m` at `keys`, concatenated in the order of `keys` (the `res +=` loop). */
  function Join(m: map<nat, string>, keys: seq<nat>): string
    requires forall x :: x in keys ==> x in m
  {
    if keys == [] then "" else Join(m, keys[..|keys| - 1]) + m[keys[|keys| - 1]]
  }

  lemma {:induction false} LeastExists(keys: set<nat>)
    requires keys != {}
    ensures exists k: nat :: k in keys && forall j: nat :: j in keys ==> k <= j
    decreases keys
  {
    var x :| x in keys;
    if keys == {x} {
      assert forall j: nat :: j in keys ==> x <= j;
    } else {
      LeastExists(keys - {x});
      var y: nat :| y in keys - {x} && forall j: nat :: j in keys - {x} ==> y <= j;
      assert forall j: nat :: j in keys ==> j == x || j in keys - {x};
      var k := if x < y then x else y;
      assert k in keys && forall j: nat :: j in keys ==> k <= j;
    }
  }

  /** The least key of a non-empty key set. */
  function Min(keys: set<nat>): (k: nat)
    requires keys != {}
    ensures k in keys && forall j: nat :: j in keys ==> k <= j
  {
    LeastExists(keys);
    var k :| k in keys && forall j: nat :: j in keys ==> k <= j;
    k
  }

  /** Python's `sorted` over the dictionary's keys. */
  function SortedKeys(keys: set<nat>): (s: seq<nat>)
    ensures StrictlyIncreasing(s)
    ensures forall i: nat :: i in s <==> i in keys
    decreases keys
  {
    if keys == {} then []
    else
      var k := Min(keys);
      var rest := SortedKeys(keys - {k});
      assert forall i: nat :: i in rest ==> k < i;
      [k] + rest
  }

  lemma PrefixStep(k: nat)
    ensures Prefix(k + 1) == Prefix(k) + [k]
  {
  }

  /** Trying frame `k` adds its chunk, if it has one, under key `k` and changes nothing else. */
  lemma StoredBelowStep<Image>(read: nat -> Option<Image>, revealFrame: (nat, Image) -> Option<string>, k: nat)
    ensures Chunk(read, revealFrame, k).Some? ==>
      StoredBelow(read, revealFrame, k + 1) == StoredBelow(read, revealFrame, k)[k := Chunk(read, revealFrame, k).value]
    ensures Chunk(read, revealFrame, k).None? ==> StoredBelow(read, revealFrame, k + 1) == StoredBelow(read, revealFrame, k)
  {
  }

  /** Every frame other than those of `range(15)` below the reported count is never read. */
  lemma WindowMembership(frameCount: int, i: nat)
    ensures i in Window(frameCount) <==> i < FramesToCheck && i < frameCount
  {
    if i < FramesToCheck && i < frameCount {
      assert Window(frameCount)[i] == i;
    }
  }

  /** With a reported frame count of zero or less, no frame is read. */
  lemma EmptyVideo<Image>(frameCount: int, read: nat -> Option<Image>, revealFrame: (nat, Image) -> Option<string>,
                          decrypt: string -> Option<string>)
    requires frameCount <= 0
    ensures Window(frameCount) == []
    ensures Carriers(frameCount, read, revealFrame) == []
    ensures Decode(frameCount, read, revealFrame, decrypt) == None
  {
  }

  lemma {:induction false} CarriersBelowExactly<Image>(read: nat -> Option<Image>, revealFrame: (nat, Image) -> Option<string>, k: nat)
    ensures StrictlyIncreasing(CarriersBelow(read, revealFrame, k))
    ensures forall i: nat :: i in CarriersBelow(read, revealFrame, k) <==> i < k && Chunk(read, revealFrame, i).Some?
  {
    if k > 0 {
      CarriersBelowExactly(read, revealFrame, k - 1);
      var s := CarriersBelow(read, revealFrame, k - 1);
      assert forall j :: 0 <= j < |s| ==> s[j] < k - 1 by {
        forall j | 0 <= j < |s| ensures s[j] < k - 1 {
          assert s[j] in s;
        }
      }
    }
  }

  /**
   * A frame of the window stores a chunk exactly when its read succeeds, its reveal does not raise and
   * the revealed text is non-empty; a failure at one frame does not stop later frames from storing theirs.
   * The carriers are strictly ascending, so each frame index contributes at most once.
   */
  lemma CarriersExactly<Image>(frameCount: int, read: nat -> Option<Image>, revealFrame: (nat, Image) -> Option<string>)
    ensures StrictlyIncreasing(Carriers(frameCount, read, revealFrame))
    ensures forall i: nat :: i in Carriers(frameCount, read, revealFrame) <==>
      && i < FramesToCheck && i < frameCount
      && read(i).Some? && revealFrame(i, read(i).value).Some? && revealFrame(i, read(i).value).value != ""
  {
    CarriersBelowExactly(read, revealFrame, WindowSize(frameCount));
  }

  /** The dictionary holds one entry per carrier frame: the text revealed from that frame. */
  lemma StoredExactly<Image>(frameCount: int, read: nat -> Option<Image>, revealFrame: (nat, Image) -> Option<string>)
    ensures forall i: nat :: i in Stored(frameCount, read, revealFrame) <==> i in Carriers(frameCount, read, revealFrame)
    ensures forall i: nat :: i in Stored(frameCount, read, revealFrame) ==>
      read(i).Some? && revealFrame(i, read(i).value) == Some(Stored(frameCount, read, revealFrame)[i])
  {
    CarriersBelowExactly(read, revealFrame, WindowSize(frameCount));
  }

  /**
   * Names the first element of a possibly empty sequence without indexing it at the call site: an index
   * written in a branch where the sequence turns out to be empty would be checked under clashing facts.
   */
  lemma HeadIsMember(s: seq<nat>)
    ensures s != [] ==> s[0] in s
  {
  }

  lemma {:induction false} IncreasingUnique(a: seq<nat>, b: seq<nat>)
    requires StrictlyIncreasing(a) && StrictlyIncreasing(b)
    requires forall i: nat :: i in a <==> i in b
    ensures a == b
    decreases |a|
  {
    if a == [] {
      HeadIsMember(b);
    } else {
      assert b != [] by { assert a[0] in b; }
      assert a[0] == b[0] by {
        assert a[0] in b;
        assert b[0] in a;
      }
      forall i
        ensures i in a[1..] <==> i in b[1..]
      {
        if i in a[1..] {
          assert i in b && i != b[0];
        }
        if i in b[1..] {
          assert i in a && i != a[0];
        }
      }
      IncreasingUnique(a[1..], b[1..]);
      assert a == [a[0]] + a[1..] && b == [b[0]] + b[1..];
    }
  }

  lemma JoinSnoc(m: map<nat, string>, keys: seq<nat>, x: nat)
    requires forall y :: y in keys ==> y in m
    requires x in m
    ensures Join(m, keys + [x]) == Join(m, keys) + m[x]
  {
    var t := keys + [x];
    assert t[..|t| - 1] == keys;
  }

  lemma {:induction false} JoinCarriersBelow<Image>(read: nat -> Option<Image>, revealFrame: (nat, Image) -> Option<string>,
                                                    m: map<nat, string>, k: nat)
    requires forall i: nat :: i < k && Chunk(read, revealFrame, i).Some? ==> i in m && m[i] == Chunk(read, revealFrame, i).value
    ensures forall x :: x in CarriersBelow(read, revealFrame, k) ==> x in m
    ensures Join(m, CarriersBelow(read, revealFrame, k)) == TextBelow(read, revealFrame, k)
  {
    if k > 0 {
      JoinCarriersBelow(read, revealFrame, m, k - 1);
      var s := CarriersBelow(read, revealFrame, k - 1);
      if Chunk(read, revealFrame, k - 1).Some? {
        JoinSnoc(m, s, k - 1);
      } else {
        assert CarriersBelow(read, revealFrame, k) == s;
      }
    }
  }

  /**
   * Joining the dictionary's values over its sorted keys gives the texts of the window in visit order:
   * the `sorted` step reorders nothing, because frames are visited in ascending order.
   */
  lemma ReassembledIsSortedJoin<Image>(frameCount: int, read: nat -> Option<Image>, revealFrame: (nat, Image) -> Option<string>)
    ensures SortedKeys(Stored(frameCount, read, revealFrame).Keys) == Carriers(frameCount, read, revealFrame)
    ensures Join(Stored(frameCount, read, revealFrame), SortedKeys(Stored(frameCount, read, revealFrame).Keys))
         == Reassembled(frameCount, read, revealFrame)
  {
    var w := WindowSize(frameCount);
    var m := Stored(frameCount, read, revealFrame);
    CarriersBelowExactly(read, revealFrame, w);
    IncreasingUnique(SortedKeys(m.Keys), Carriers(frameCount, read, revealFrame));
    JoinCarriersBelow(read, revealFrame, m, w);
  }

  lemma {:induction false} TextBelowEmpty<Image>(read: nat -> Option<Image>, revealFrame: (nat, Image) -> Option<string>, k: nat)
    ensures TextBelow(read, revealFrame, k) == "" <==> CarriersBelow(read, revealFrame, k) == []
  {
    if k > 0 {
      TextBelowEmpty(read, revealFrame, k - 1);
    }
  }

  /**
   * The three outcomes: `None` exactly when no frame of the window stored text; otherwise the decrypted
   * text when decryption succeeds, and the non-empty raw concatenation, unchanged, when it fails.
   */
  lemma DecodeOutcome<Image>(frameCount: int, read: nat -> Option<Image>, revealFrame: (nat, Image) -> Option<string>,
                             decrypt: string -> Option<string>)
    ensures Decode(frameCount, read, revealFrame, decrypt) == None <==> Carriers(frameCount, read, revealFrame) == []
    ensures Carriers(frameCount, read, revealFrame) != [] ==> Reassembled(frameCount, read, revealFrame) != ""
    ensures Carriers(frameCount, read, revealFrame) != [] && decrypt(Reassembled(frameCount, read, revealFrame)).Some? ==>
      Decode(frameCount, read, revealFrame, decrypt) == decrypt(Reassembled(frameCount, read, revealFrame))
    ensures Carriers(frameCount, read, revealFrame) != [] && decrypt(Reassembled(frameCount, read, revealFrame)).None? ==>
      Decode(frameCount, read, revealFrame, decrypt) == Some(Reassembled(frameCount, read, revealFrame))
  {
  }

  lemma {:induction false} TextBelowAgree<Image>(read1: nat -> Option<Image>, revealFrame1: (nat, Image) -> Option<string>,
                                                 read2: nat -> Option<Image>, revealFrame2: (nat, Image) -> Option<string>, k: nat)
    requires forall i: nat :: i < k ==> read1(i) == read2(i)
    requires forall i: nat :: i < k && read1(i).Some? ==> revealFrame1(i, read1(i).value) == revealFrame2(i, read1(i).value)
    ensures TextBelow(read1, revealFrame1, k) == TextBelow(read2, revealFrame2, k)
  {
    if k > 0 {
      TextBelowAgree(read1, revealFrame1, read2, revealFrame2, k - 1);
      assert TextAt(read1, revealFrame1, k - 1) == TextAt(read2, revealFrame2, k - 1);
    }
  }

  /** Frames outside the window, and reveals of them, have no influence on the result. */
  lemma OnlyWindowMatters<Image>(frameCount: int, read1: nat -> Option<Image>, revealFrame1: (nat, Image) -> Option<string>,
                                 read2: nat -> Option<Image>, revealFrame2: (nat, Image) -> Option<string>,
                                 decrypt: string -> Option<string>)
    requires forall i: nat :: i in Window(frameCount) ==> read1(i) == read2(i)
    requires forall i: nat :: i in Window(frameCount) && read1(i).Some? ==> revealFrame1(i, read1(i).value) == revealFrame2(i, read1(i).value)
    ensures Decode(frameCount, read1, revealFrame1, decrypt) == Decode(frameCount, read2, revealFrame2, decrypt)
  {
    var w := WindowSize(frameCount);
    forall i: nat | i < w
      ensures read1(i) == read2(i)
      ensures read1(i).Some? ==> revealFrame1(i, read1(i).value) == revealFrame2(i, read1(i).value)
    {
      assert Window(frameCount)[i] == i;
    }
    TextBelowAgree(read1, revealFrame1, read2, revealFrame2, w);
  }
}
