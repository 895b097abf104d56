/** The boundary to the operating system and to the video codec library: the
    local file system as a map from path to bytes, and the two OpenCV handles
    the processor uses, a capture that reads frames and a writer that encodes
    them. Decoding and encoding themselves are opaque functions. */
module MediaIO {
  import opened Wrappers

  newtype byte = x: int | 0 <= x < 256

  type Bytes = seq<byte>

  /** A decoded image. Its pixels are never inspected by the model. */
  datatype Frame = Frame(pixels: Bytes)

  /** What a video container holds once decoded: the properties the capture
      reports and the outcome of each successive read (`None` where a frame
      fails to decode). */
  datatype Container = Container(
    fps: real, frameCount: int, width: int, height: int,
    decoded: seq<Option<Frame>>)

  /** The codec capabilities: `decode` is what `cv2.VideoCapture` makes of a
      file (`None`: it cannot be opened), `encode` is the file an `mp4v`
      writer leaves behind, `writerOpens` whether that writer can be opened at
      all, and `encodeImage` is `cv2.imwrite`'s JPEG encoding. */
  datatype Codec = Codec(
    decode: Bytes -> Option<Container>,
    encode: (seq<Frame>, real, int, int) -> Bytes,
    writerOpens: bool,
    encodeImage: Frame -> Bytes)

  /** The frames a sequential reader obtains: every read up to, not including,
      the first one that fails. */
  function ReadPrefix(decoded: seq<Option<Frame>>): (r: seq<Frame>)
    ensures |r| <= |decoded|
  {
    if decoded == [] || decoded[0].None? then [] else [decoded[0].value] + ReadPrefix(decoded[1..])
  }

  /** Read `n` succeeds, with the `n`-th frame of the prefix, exactly while
      `n` is inside the prefix; the read just after it fails or is past the end. */
  lemma {:induction false} ReadPrefixAt(decoded: seq<Option<Frame>>, n: nat)
    requires n <= |ReadPrefix(decoded)|
    ensures n < |ReadPrefix(decoded)| ==> decoded[n] == Some(ReadPrefix(decoded)[n])
    ensures n == |ReadPrefix(decoded)| ==> n == |decoded| || decoded[n].None?
  {
    if decoded != [] && decoded[0].Some? && n > 0 {
      ReadPrefixAt(decoded[1..], n - 1);
    }
  }

  /** The local file system and the set of open OS handles. */
  class FileSystem {
    var files: map<string, Bytes>
    var handles: set<object>

    constructor (files: map<string, Bytes>)
      ensures this.files == files && handles == {}
    {
      this.files := files;
      handles := {};
    }

    method WriteFile(path: string, data: Bytes)
      modifies this
      ensures files == old(files)[path := data] && handles == old(handles)
    {
      files := files[path := data];
    }

    /** `os.unlink`. */
    method Unlink(path: string)
      modifies this
      ensures files == old(files) - {path} && handles == old(handles)
    {
      files := files - {path};
    }
  }

  /** `cv2.VideoCapture`: opened on a path, it decodes the file once and
      serves its reads from a position that `Read` advances and `SetPosition`
      moves. An opened capture holds an OS handle until `Release`. */
  class VideoCapture {
    const fs: FileSystem
    const container: Option<Container>
    var pos: int

    constructor Open(fs: FileSystem, codec: Codec, path: string)
      modifies fs
      ensures this.fs == fs && pos == 0
      ensures container == if path in old(fs.files) then codec.decode(old(fs.files)[path]) else None
      ensures fs.files == old(fs.files)
      ensures fs.handles == old(fs.handles) + if container.Some? then {this} else {}
    {
      this.fs := fs;
      container := if path in fs.files then codec.decode(fs.files[path]) else None;
      pos := 0;
      new;
      if container.Some? {
        fs.handles := fs.handles + {this};
      }
    }

    /** `cap.isOpened()`. */
    predicate IsOpened()
      reads this, fs
    {
      container.Some? && this in fs.handles
    }

    /** `cap.read()`: the frame at the current position when it decodes. */
    method Read() returns (f: Option<Frame>)
      modifies this
      ensures f == if IsOpened() && 0 <= old(pos) < |container.value.decoded| then container.value.decoded[old(pos)] else None
      ensures pos == if f.Some? then old(pos) + 1 else old(pos)
    {
      if IsOpened() && 0 <= pos < |container.value.decoded| {
        f := container.value.decoded[pos];
      } else {
        f := None;
      }
      if f.Some? {
        pos := pos + 1;
      }
    }

    /** `cap.set(cv2.CAP_PROP_POS_FRAMES, n)`. */
    method SetPosition(n: int)
      modifies this
      ensures pos == n
    {
      pos := n;
    }

    /** `cap.release()`. */
    method Release()
      modifies fs
      ensures fs.handles == old(fs.handles) - {this} && fs.files == old(fs.files)
    {
      fs.handles := fs.handles - {this};
    }
  }

  /** `cv2.VideoWriter`: collects frames and, on `Release`, leaves the encoded
      file at its path. A writer whose codec cannot open drops every frame and
      writes nothing. */
  class VideoWriter {
    const fs: FileSystem
    const codec: Codec
    const path: string
    const fps: real
    const width: int
    const height: int
    var frames: seq<Frame>

    constructor (fs: FileSystem, codec: Codec, path: string, fps: real, width: int, height: int)
      modifies fs
      ensures this.fs == fs && this.codec == codec && this.path == path
      ensures this.fps == fps && this.width == width && this.height == height
      ensures frames == [] && fs.files == old(fs.files)
      ensures fs.handles == old(fs.handles) + if codec.writerOpens then {this} else {}
    {
      this.fs, this.codec, this.path := fs, codec, path;
      this.fps, this.width, this.height := fps, width, height;
      frames := [];
      new;
      if codec.writerOpens {
        fs.handles := fs.handles + {this};
      }
    }

    /** `writer.write(frame)`. */
    method Write(f: Frame)
      modifies this
      ensures frames == old(frames) + if codec.writerOpens then [f] else []
    {
      if codec.writerOpens {
        frames := frames + [f];
      }
    }

    /** `writer.release()`: finalises the output file. */
    method Release()
      modifies fs
      ensures fs.handles == old(fs.handles) - {this}
      ensures fs.files == if codec.writerOpens then old(fs.files)[path := codec.encode(frames, fps, width, height)] else old(fs.files)
    {
      if codec.writerOpens {
        fs.files := fs.files[path := codec.encode(frames, fps, width, height)];
      }
      fs.handles := fs.handles - {this};
    }
  }
}
