/**
 * The `MP3Player` component's selection state: the playlist, the index of
 * the selected song (-1 for none) and whether it is playing, with the
 * handlers that change them, the upload button's guard and message, and
 * `formatTime`. The browser's file picker, object URLs and the upload
 * request to the device are replaced by their results.
 */
module Mp3Player {
  import opened Wrappers
  import opened Decimal

  datatype Song = Song(name: string, src: string)

  datatype MessageKind = ErrorMessage | SuccessMessage

  datatype Message = Message(text: string, kind: MessageKind)

  const PreloadedSongs: seq<Song> := [
    Song("Song 1", "/preloaded-songs/song1.mp3"),
    Song("Song 2", "/preloaded-songs/song2.mp3"),
    Song("Song 3", "/preloaded-songs/song3.mp3")]

  const SelectFirstText: string := "Please select a song to upload."
  const UploadedText: string := "File uploaded successfully to Pico"
  const RejectedText: string := "Failed to upload song to Pico"
  const FailedPrefix: string := "An error occurred while uploading the song to Pico: "

  // ---------------------------------------------------------------- finding a song

  predicate OccursAt(s: string, sub: string, i: int) {
    0 <= i && i + |sub| <= |s| && s[i..i + |sub|] == sub
  }

  /** Past a non-matching first position, occurrences are those of the rest shifted by one. */
  lemma OccursShift(s: string, sub: string)
    requires |sub| <= |s| && s[..|sub|] != sub
    ensures (exists i :: OccursAt(s, sub, i)) <==> (exists i :: OccursAt(s[1..], sub, i))
  {
    if exists i :: OccursAt(s[1..], sub, i) {
      var i :| OccursAt(s[1..], sub, i);
      assert OccursAt(s, sub, i + 1);
    }
    if exists i :: OccursAt(s, sub, i) {
      var i :| OccursAt(s, sub, i);
      assert i != 0;
      assert OccursAt(s[1..], sub, i - 1);
    }
  }

  /** JavaScript's `s.includes(sub)`. */
  function Includes(s: string, sub: string): (r: bool)
    ensures r <==> exists i :: OccursAt(s, sub, i)
    decreases |s|
  {
    if |sub| > |s| then false
    else if s[..|sub|] == sub then
      assert OccursAt(s, sub, 0);
      true
    else
      OccursShift(s, sub);
      Includes(s[1..], sub)
  }

  /** Index of the first song whose source contains `value`, or -1. */
  function FindIndex(playlist: seq<Song>, value: string): (r: int)
    ensures -1 <= r < |playlist|
    ensures r >= 0 ==> Includes(playlist[r].src, value) &&
                       forall k :: 0 <= k < r ==> !Includes(playlist[k].src, value)
    ensures r == -1 ==> forall k :: 0 <= k < |playlist| ==> !Includes(playlist[k].src, value)
  {
    if playlist == [] then -1
    else if Includes(playlist[0].src, value) then 0
    else
      var r := FindIndex(playlist[1..], value);
      assert forall k :: 0 < k < |playlist| ==> playlist[k] == playlist[1..][k - 1];
      if r == -1 then -1 else r + 1
  }

  // ---------------------------------------------------------------- the upload

  /**
   * How the upload to the device ends once a song is selected: the song's
   * data could not be read (the rejection escapes the handler), the device
   * accepted it, the device answered with an error status and perhaps an
   * `error` text, or the request threw, perhaps with an error message.
   */
  datatype PicoReply =
    | SourceUnreadable
    | Accepted
    | Rejected(error: Option<string>)
    | Threw(reason: Option<string>)

  /** The message `handleUpload` shows for a reply; `None` when it leaves the message alone. */
  function ReplyMessage(reply: PicoReply): Option<Message> {
    match reply
    case SourceUnreadable => None
    case Accepted => Some(Message(UploadedText, SuccessMessage))
    case Rejected(e) =>
      Some(Message(if e.Some? && e.value != "" then e.value else RejectedText, ErrorMessage))
    case Threw(reason) =>
      Some(Message(FailedPrefix + (if reason.Some? then reason.value else "Unknown error"), ErrorMessage))
  }

  // ---------------------------------------------------------------- the component

  class Player {
    var playlist: seq<Song>
    var currentSongIndex: int
    var isPlaying: bool
    var message: Option<Message>

    /** The selected index is -1 or the index of a song of the playlist. */
    ghost predicate Valid()
      reads this
    {
      currentSongIndex == -1 || 0 <= currentSongIndex < |playlist|
    }

    /** The state hooks, after the mount effect has loaded the preloaded songs. */
    constructor ()
      ensures Valid()
      ensures playlist == PreloadedSongs && currentSongIndex == -1 && !isPlaying && message == None
    {
      playlist := PreloadedSongs;
      currentSongIndex := -1;
      isPlaying := false;
      message := None;
    }

    /**
     * `handleFileChange`: a chosen file (its name and object URL) is
     * appended and selected, and playback stops; without a file nothing changes.
     */
    method HandleFileChange(file: Option<Song>)
      requires Valid()
      modifies this
      ensures Valid()
      ensures file.None? ==> playlist == old(playlist) && currentSongIndex == old(currentSongIndex) &&
                             isPlaying == old(isPlaying)
      ensures file.Some? ==> playlist == old(playlist) + [file.value] &&
                             currentSongIndex == |old(playlist)| && !isPlaying
      ensures message == old(message)
    {
      if file.Some? {
        var newSong := file.value;
        var oldLength := |playlist|;
        playlist := playlist + [newSong];
        currentSongIndex := oldLength;
        isPlaying := false;
      }
    }

    /**
     * `handlePreloadedSongChange`: selects the first song whose source
     * contains `value` and stops playback; with no such song nothing changes.
     */
    method HandlePreloadedSongChange(value: string)
      requires Valid()
      modifies this
      ensures Valid()
      ensures playlist == old(playlist) && message == old(message)
      ensures var i := FindIndex(old(playlist), value);
        if i == -1 then currentSongIndex == old(currentSongIndex) && isPlaying == old(isPlaying)
        else currentSongIndex == i && !isPlaying
    {
      var songIndex := FindIndex(playlist, value);
      if songIndex != -1 {
        currentSongIndex := songIndex;
        isPlaying := false;
      }
    }

    /** `handlePlayPause` */
    method HandlePlayPause()
      requires Valid()
      modifies this
      ensures Valid()
      ensures isPlaying == !old(isPlaying)
      ensures playlist == old(playlist) && currentSongIndex == old(currentSongIndex) && message == old(message)
    {
      isPlaying := !isPlaying;
    }

    /**
     * `handleUpload`: with nothing selected it only sets the error message
     * and sends nothing; otherwise it sends the selected song and shows the
     * message for the device's reply.
     */
    method HandleUpload(reply: PicoReply) returns (sent: Option<Song>)
      requires Valid()
      modifies this
      ensures Valid()
      ensures playlist == old(playlist) && currentSongIndex == old(currentSongIndex) && isPlaying == old(isPlaying)
      ensures currentSongIndex == -1 ==> sent == None && message == Some(Message(SelectFirstText, ErrorMessage))
      ensures currentSongIndex != -1 ==>
        && sent == (if reply.SourceUnreadable? then None else Some(playlist[currentSongIndex]))
        && message == (if ReplyMessage(reply).Some? then ReplyMessage(reply) else old(message))
    {
      if currentSongIndex == -1 {
        message := Some(Message(SelectFirstText, ErrorMessage));
        return None;
      }
      var currentSong := playlist[currentSongIndex];
      if reply.SourceUnreadable? {
        return None;
      }
      message := ReplyMessage(reply);
      sent := Some(currentSong);
    }
  }

  /** One user action on the component. */
  datatype Event =
    | FileChosen(file: Option<Song>)
    | PreloadedChosen(value: string)
    | PlayPauseClicked
    | UploadClicked(reply: PicoReply)

  function FilesAdded(events: seq<Event>): nat {
    if events == [] then 0
    else (if events[0].FileChosen? && events[0].file.Some? then 1 else 0) + FilesAdded(events[1..])
  }

  /**
   * The component from mount through a sequence of user actions: whatever
   * the order, the selection stays -1 or a playlist index, and the playlist
   * is the preloaded songs followed by one entry per file chosen.
   */
  method Run(events: seq<Event>) returns (p: Player)
    ensures p.Valid()
    ensures |p.playlist| == |PreloadedSongs| + FilesAdded(events)
    ensures p.playlist[..|PreloadedSongs|] == PreloadedSongs
  {
    p := new Player();
    for i := 0 to |events|
      invariant p.Valid()
      invariant |p.playlist| == |PreloadedSongs| + FilesAdded(events[..i])
      invariant p.playlist[..|PreloadedSongs|] == PreloadedSongs
    {
      assert events[..i + 1][..i] == events[..i];
      FilesAddedSnoc(events[..i], events[i]);
      assert events[..i + 1] == events[..i] + [events[i]];
      match events[i]
      case FileChosen(file) =>
        p.HandleFileChange(file);
      case PreloadedChosen(value) =>
        p.HandlePreloadedSongChange(value);
      case PlayPauseClicked =>
        p.HandlePlayPause();
      case UploadClicked(reply) =>
        var _ := p.HandleUpload(reply);
    }
    assert events[..|events|] == events;
  }

  lemma {:induction false} FilesAddedSnoc(events: seq<Event>, e: Event)
    ensures FilesAdded(events + [e]) == FilesAdded(events) + (if e.FileChosen? && e.file.Some? then 1 else 0)
  {
    if events == [] {
      assert events + [e] == [e];
    } else {
      assert (events + [e])[1..] == events[1..] + [e];
      FilesAddedSnoc(events[1..], e);
    }
  }

  // ---------------------------------------------------------------- formatTime

  /** `formatTime(time)` for a whole, non-negative number of seconds. */
  function FormatTime(t: nat): string {
    NatToDec(t / 60) + ":" + PadStart(NatToDec(t % 60), 2, '0')
  }

  /** Reads ":ss" back into seconds; the field must be two digits below 60. */
  function ParseSeconds(rest: string): Option<nat> {
    if |rest| == 3 && rest[0] == ':' && AllDigits(rest[1..]) && DecToNat(rest[1..]) < 60
    then Some(DecToNat(rest[1..]))
    else None
  }

  /** Reads "m:ss" back into seconds. */
  function ParseTime(s: string): Option<nat> {
    match ReadNat(s)
    case None => None
    case Some((m, rest)) =>
      match ParseSeconds(rest)
      case None => None
      case Some(x) => Some(m * 60 + x)
  }

  /** The seconds field is exactly two digits, zero-padded. */
  lemma SecondsField(x: nat)
    requires x < 60
    ensures var f := PadStart(NatToDec(x), 2, '0');
      |f| == 2 && AllDigits(f) && DecToNat(f) == x
  {
    DecRoundTrip(x);
    var d := NatToDec(x);
    if x < 10 {
      assert d == [DigitChar(x)];
      assert PadStart(d, 2, '0') == "0" + d;
      LeadingZero(d);
    } else {
      assert x / 10 < 10;
      assert |NatToDec(x / 10)| == 1;
    }
  }

  /** Minutes, a colon and a two-digit seconds field read back to the total number of seconds. */
  lemma ParseMinutesSeconds(m: nat, x: nat)
    requires x < 60
    ensures ParseTime(NatToDec(m) + (":" + PadStart(NatToDec(x), 2, '0'))) == Some(m * 60 + x)
  {
    var secs := PadStart(NatToDec(x), 2, '0');
    var rest := ":" + secs;
    SecondsField(x);
    assert rest[1..] == secs;
    assert ParseSeconds(rest) == Some(x);
    ReadNatExact(m, rest);
  }

  /** `formatTime` loses nothing: minutes, a colon and two-digit seconds read back to the same time. */
  lemma FormatTimeRoundTrip(t: nat)
    ensures ParseTime(FormatTime(t)) == Some(t)
  {
    var m, x := t / 60, t % 60;
    assert FormatTime(t) == NatToDec(m) + (":" + PadStart(NatToDec(x), 2, '0'));
    ParseMinutesSeconds(m, x);
    assert m * 60 + x == t;
  }
}
