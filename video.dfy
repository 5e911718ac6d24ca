/** Decoded video as `cv2.VideoCapture` presents it: frames read one at a time. */
module Video {
  import opened Wrappers

  /** A decoded raster frame; its pixels are never inspected by the model. */
  datatype Frame = Frame(width: nat, height: nat, channels: nat, pixels: seq<bv8>)

  /**
   * What a video file holds for the decoder: whether it can be opened, the
   * frame rate its container reports, and the frames that read successfully
   * before the first failed read.
   */
  datatype VideoFile = VideoFile(decodable: bool, fps: real, frames: seq<Frame>)

  /** An open handle on a video file, read sequentially. */
  class VideoCapture {
    const frames: seq<Frame>
    const fps: real
    var isOpen: bool
    /** Number of frames read so far. */
    var position: nat
    /** Number of calls to `Release`. */
    ghost var releases: nat

    ghost predicate Valid()
      reads this
    {
      position <= |frames|
    }

    /** `cv2.VideoCapture(video_path)` */
    constructor (video: VideoFile)
      ensures Valid()
      ensures frames == video.frames && fps == video.fps
      ensures isOpen == video.decodable && position == 0 && releases == 0
    {
      frames, fps := video.frames, video.fps;
      isOpen, position := video.decodable, 0;
      releases := 0;
    }

    /** `cap.isOpened()` */
    predicate IsOpened()
      reads this
    {
      isOpen
    }

    /** `cap.read()`: the next frame, or nothing at the end or on a closed handle. */
    method Read() returns (frame: Option<Frame>)
      requires Valid()
      modifies this`position
      ensures Valid()
      ensures old(isOpen && position < |frames|) ==>
        frame == Some(frames[old(position)]) && position == old(position) + 1
      ensures !old(isOpen && position < |frames|) ==>
        frame == None && position == old(position)
    {
      if isOpen && position < |frames| {
        frame := Some(frames[position]);
        position := position + 1;
      } else {
        frame := None;
      }
    }

    /** `cap.release()` */
    method Release()
      requires Valid()
      modifies this`isOpen, this`releases
      ensures Valid()
      ensures !isOpen && releases == old(releases) + 1
    {
      isOpen := false;
      releases := releases + 1;
    }
  }
}
