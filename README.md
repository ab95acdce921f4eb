# Frame-window message recovery of the video steganography server

This project models `decode_video` in `stegano/server.py`: the procedure that recovers a hidden,
RSA-encrypted text message from a video. It tries the first fifteen frames (`range(15)`), skips those
at or beyond the reported frame count, seeks to and reads each remaining frame, and runs the LSB
reveal on it. A frame whose read fails, whose reveal raises, or whose revealed text is empty
contributes nothing, and the scan goes on. Every other frame stores its text in a dictionary keyed by
frame number. The stored texts are then concatenated in sorted key order. The result is `None` when
nothing was recovered; otherwise it is the decrypted text, or the raw concatenation when decryption
raises.

The video, the bit codec and the RSA layer are parameters of the model:

- `frameCount: int` is the reported frame count, after Python's `int(...)` of the OpenCV property.
- `read: nat -> Option<Image>` is the outcome of seeking to frame `i` and reading it. `None` stands for `ret` being false.
- `revealFrame: (nat, Image) -> Option<string>` is the LSB reveal of frame `i` after it is written to its temporary file. It takes the frame index as well as the pixels, because the outcome of that file round trip can depend on more than the pixels. `None` stands for a reveal that raises or returns `None`.
- `decrypt: string -> Option<string>` is RSA decryption followed by UTF-8 decoding. `None` stands for either step raising.

Modules:

- `Wrappers` (`wrappers.dfy`): the `Option` type.
- `Reassembly` (`reassembly.dfy`): the pure specification. `Window` gives the frames that are read, `Chunk` what one frame stores, `Carriers` the frames that store text, `Stored` the final dictionary, `Reassembled` the joined text and `Decode` the returned value. The lemmas about them are here too.
- `Server` (`server.dfy`): `DecodeVideo` mirrors the source's two loops over a `map<nat, string>` and a string accumulator, and is proved equal to `Decode`. The module also holds the model of the code as written, with its missing `lsb` import (see Findings).

The design of the system as a whole also describes message chunking, frame selection for
embedding, and a metadata frame that a decoder looks for before falling back to frames `0..14`.
`stegano/server.py` contains none of these. Its decoder always uses the fixed window `0..14` and
orders chunks by numeric frame index. The model follows the code.

## Model

| member | source | states |
|---|---|---|
| `Server.DecodeVideo` | stegano/server.py:219-273 | the two-loop procedure returns exactly `Decode` of its inputs; the frames it reads are exactly `0, 1, ...` up to `min(15, frameCount)`, each once and in ascending order; it attempts a reveal on exactly the window frames whose read succeeded |
| `Server.Arrange` | stegano/server.py:259-262 | the `res +=` loop over `sorted(decoded.keys())` yields the stored texts joined in ascending key order |
| `Reassembly.SortedKeys` | stegano/server.py:261 | the sorted key list is strictly ascending and holds exactly the dictionary's keys |
| `Reassembly.Window` | stegano/server.py:232-239 | the frames read are `0, 1, ...` in order, each below the reported count; there are 15 of them when the count is at least 15, as many as the count when it is between 0 and 15, and none when it is 0 or less |
| `Reassembly.Stored` | stegano/server.py:235-257 | every key of the final dictionary is a frame of `range(15)` below the reported count, and every stored text is non-empty |
| `Reassembly.Reassembled` | stegano/server.py:259-262 | the joined text is empty exactly when no frame of the window stored text |
| `Reassembly.Decode` | stegano/server.py:219-273 | what `decode_video` returns is `None` exactly when no frame of the window stored text |
| `Reassembly.Chunk` | stegano/server.py:253-254 | a frame never stores empty text |
| `Reassembly.WindowMembership` | stegano/server.py:232-239 | a frame is read if and only if its index is in `range(15)` and below the reported frame count |
| `Reassembly.EmptyVideo` | stegano/server.py:237-239 | with a reported count of zero or less, no frame is read, no frame stores text, and the result is `None` |
| `Reassembly.CarriersExactly` | stegano/server.py:237-257 | a frame stores text if and only if it is in the window, its read succeeds, its reveal does not raise and the revealed text is non-empty; a failure at one frame has no effect on whether any other frame stores; the storing frames are strictly ascending, so each index contributes at most once |
| `Reassembly.StoredBelowStep` | stegano/server.py:253-254 | trying one frame adds its text under its own key when it has one, and otherwise leaves the dictionary unchanged |
| `Reassembly.StoredExactly` | stegano/server.py:235-254 | the dictionary's keys are exactly the storing frames, and each value is the text revealed from that frame |
| `Reassembly.ReassembledIsSortedJoin` | stegano/server.py:259-262 | the dictionary's sorted keys are the storing frames in visit order, and joining the values over them gives the concatenation of the window's texts in visit order |
| `Reassembly.DecodeOutcome` | stegano/server.py:264-273 | the result is `None` if and only if no frame stored text; otherwise the joined text is non-empty, and the result is the decrypted text when decryption succeeds and the raw joined text, unchanged, when it fails |
| `Reassembly.OnlyWindowMatters` | stegano/server.py:232-257 | two videos whose reads, and reveals of what was read, agree on the window give the same result: frames outside the window have no influence |
| `Server.AsWrittenNeverRecovers` | stegano/server.py:250-257 | with `AsWrittenReveal`, the reveal the code actually runs (it always raises `NameError`, which is swallowed), the result is `None` for every frame count, every frame and every decryption |
| `Server.AsWrittenLosesMessage` | stegano/server.py:250-273 | on a one-frame video whose frame carries `abc` and does not decrypt, the code as written returns `None`, while the intended reveal returns `abc` |

## Left out

- HTTP layer: the Flask app, the CORS headers and the `/`, `/extract` and `/decrypt` routes (stegano/server.py:13-31, 58-94, 275-311).
- Filesystem work: creating the temporary and upload directories and removing them with `shutil.rmtree`.
- `extract_frames` (stegano/server.py:36-56): an OpenCV read and `imwrite` loop with no logic beyond counting.
- OpenCV calls inside `decode_video`: opening the video, reading the frame-count property, seeking, reading and `imwrite`. The frame count is the `frameCount` parameter, and seeking plus reading is the `read` parameter.
- The temporary PNG: the source writes each frame to a file and reveals from that file. The model has no file. An `imwrite` that returns false leaves no file, so the reveal of it raises and the frame is skipped. The model covers that as `revealFrame(i, frame)` being `None` for that frame index `i`, even when another frame has the same pixels.
- `Server.DecodeVideo`: assumes that the calls outside the `try` of stegano/server.py:251-257 do not raise: `int(cap.get(...))` at line 227, `cap.set` and `cap.read` at lines 242-243, and `cv2.imwrite` at line 248. In the source, an exception from any of them ends `decode_video` and reaches the caller's `except Exception` at line 305, with no frame skipped. The model's `Option<string>` result has no value for that outcome.
- `lsb.reveal`: the LSB bit codec is not part of this model. It is the `revealFrame` parameter. A reveal that raises and one that returns `None` are both `None` there, because the source skips the frame in both cases.
- `generate_keys`, `encrypt_rsa` and `decrypt_rsa` (stegano/server.py:100-196): RSA-OAEP with SHA-256, PEM key files and base64 are calls into the `cryptography` library plus file I/O. Decryption and UTF-8 decoding together are the `decrypt` parameter.
- The port-retry startup loop (stegano/server.py:199-218): server start-up, not message logic.
- Logging through `print`.
- Message chunking, carrier-frame selection, the metadata frame and its discovery: described for the system as a whole, but absent from `stegano/server.py`. They are not modelled.

## Findings

| source | as written | input that shows it | evidently intended | confidence | as-written member | corrected member |
|---|---|---|---|---|---|---|
| stegano/server.py:252 | `lsb.reveal(...)` is called, but no line of the file imports or defines `lsb` (the imports are lines 1-11). Every call raises `NameError`, and `except Exception` on line 256 swallows it, so every frame is skipped and `decode_video` always returns `None` | a video with a reported count of 1 whose frame 0 carries the hidden text `abc`: the result is `None` instead of a text | import the LSB codec, so that `reveal` returns the hidden text; the result is then `None` only when no window frame yields text, as `Reassembly.DecodeOutcome` proves for `Server.DecodeVideo`, whose reveal is a parameter; `Server.AsWrittenLosesMessage` works the example through both versions | high; not executed | `Server.AsWrittenNeverRecovers` | `Server.DecodeVideo` |
