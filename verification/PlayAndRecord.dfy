// A run of the player whose words go to the recorder.
module PlayAndRecord {
  import opened Numbers
  import opened MfbStream
  import opened FrameRecorder
  import opened FrameLayout
  import opened MfbRoundTrip
  import opened GapFrames
  import opened PlayerRecorder
  import opened Player
  import opened Reader

  // The frames recorded are the frames played if and only if the packets meet the exact
  // conditions; the FIFO needs one word more than the full words.
  method PlayThenRecord(m: Mfb, depth: nat, packets: seq<seq<byte>>) returns (r: Result<seq<seq<byte>>>, words: nat)
    requires m.Valid()
    ensures r == Success(PlayedFrames(m, depth, packets)) <==> (
      && !Filled(m, depth, packets).shared
      && LongButLast(PlayedFrames(m, depth, packets))
      && LastZeros(PlayedFrames(m, depth, packets), Behind(m, depth, packets)))
    ensures words == Filled(m, depth, packets).words + 1
    ensures (words > depth <==> Filled(m, depth, packets).words == depth)
  {
    hide Place, Placed, Filled, Run, Emitted, LastZeros, LongButLast, BehindSkip;
    var player := new PlayerConfigurator(m, depth);
    player.Generate(packets);
    assert player.written == Emitted(m, Played(m, depth, packets));
    EmittedLimbs(m, Played(m, depth, packets));
    FifoExceeded(m, depth, packets);
    RoundTripOnSizes(m, depth, packets);
    var reader := new RecorderReader(m);
    var done := reader.Read(player.written);
    words := player.wordsCnt;
    match done
    case Failure(error) => r := Failure(error);
    case Success(_) => r := Success(reader.packets);
  }
}
