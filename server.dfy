/** `decode_video` of stegano/server.py as the two-loop procedure it is, proved equal to `Reassembly.Decode`. */
module Server {
  import opened Wrappers
  import opened Reassembly

  /**
   * Scans frames `0..14`, skipping those at or beyond the reported count, those whose read fails, and
   * those whose reveal raises or yields empty text; stores the rest by frame number; joins them over the
   * sorted keys; and returns `None`, the decrypted text, or the raw text when decryption fails.
   * `probed` records the frames read, `revealedOn` the frames whose reveal was attempted.
   */
  method DecodeVideo<Image>(frameCount: int, read: nat -> Option<Image>, revealFrame: (nat, Image) -> Option<string>,
                            decrypt: string -> Option<string>)
    returns (r: Option<string>, ghost probed: seq<nat>, ghost revealedOn: seq<nat>)
    ensures r == Decode(frameCount, read, revealFrame, decrypt)
    ensures probed == Window(frameCount)
    ensures forall i: nat :: i in revealedOn <==> i < FramesToCheck && i < frameCount && read(i).Some?
  {
    ghost var w := WindowSize(frameCount);
    var decoded: map<nat, string> := map[];
    probed, revealedOn := [], [];
    for frameNumber: nat := 0 to FramesToCheck
      invariant decoded == StoredBelow(read, revealFrame, if frameNumber < w then frameNumber else w)
      invariant probed == Prefix(if frameNumber < w then frameNumber else w)
      invariant forall i: nat :: i in revealedOn <==> i < frameNumber && i < w && read(i).Some?
    {
      if frameNumber >= frameCount {
        continue;
      }
      StoredBelowStep(read, revealFrame, frameNumber);
      PrefixStep(frameNumber);
      var frame := read(frameNumber);
      probed := probed + [frameNumber];
      if frame.None? {
        continue;
      }
      revealedOn := revealedOn + [frameNumber];
      var clearMessage := revealFrame(frameNumber, frame.value);
      if clearMessage.Some? && clearMessage.value != "" {
        decoded := decoded[frameNumber := clearMessage.value];
      }
    }

    var res := Arrange(decoded);
    assert res == Reassembled(frameCount, read, revealFrame) by {
      ReassembledIsSortedJoin(frameCount, read, revealFrame);
    }

    if res == "" {
      r := None;
      return;
    }
    match decrypt(res) {
      case Some(plain) => r := Some(plain);
      case None => r := Some(res);
    }
  }

  /** The `res +=` loop over `sorted(decoded.keys())`: the stored texts joined in ascending key order. */
  method Arrange(decoded: map<nat, string>) returns (res: string)
    ensures res == Join(decoded, SortedKeys(decoded.Keys))
  {
    var keys := SortedKeys(decoded.Keys);
    res := "";
    for j := 0 to |keys|
      invariant res == Join(decoded, keys[..j])
    {
      assert keys[..j + 1][..j] == keys[..j];
      res := res + decoded[keys[j]];
    }
    assert keys[..|keys|] == keys;
  }

  /**
   * stegano/server.py never imports `lsb`, so `lsb.reveal` raises `NameError` on every frame and the
   * `except Exception` clause swallows it: the reveal the code actually runs always fails.
   */
  function AsWrittenReveal<Image>(frameNumber: nat, frame: Image): Option<string>
  {
    None
  }

  /** As written, `decode_video` returns `None` for every video, whatever its frames hold. */
  lemma AsWrittenNeverRecovers<Image>(frameCount: int, read: nat -> Option<Image>, decrypt: string -> Option<string>)
    ensures Decode(frameCount, read, AsWrittenReveal, decrypt) == None
  {
    CarriersExactly(frameCount, read, AsWrittenReveal);
    HeadIsMember(Carriers(frameCount, read, AsWrittenReveal));
  }

  /** A one-frame video whose frame carries `abc` (which does not decrypt): lost as written, recovered as intended. */
  lemma AsWrittenLosesMessage()
    ensures Decode(1, (i: nat) => Some(i), AsWrittenReveal, (s: string) => None) == None
    ensures Decode(1, (i: nat) => Some(i), (i: nat, frame: nat) => Some("abc"), (s: string) => None) == Some("abc")
  {
    AsWrittenNeverRecovers(1, (i: nat) => Some(i), (s: string) => None);
    assert TextBelow((i: nat) => Some(i), (i: nat, frame: nat) => Some("abc"), 1) == "abc";
  }
}
