/** The gesture history of the sign-language camera page (js/camera.js): a
    list of at most ten records, newest first, changed in place. */
module Camera {
  import opened MostRecentFirst

  const GestureHistoryCap: nat := 10

  /** A recognised gesture as the detector reports it. */
  datatype Gesture = Gesture(name: string, meaning: string, confidence: real)

  /** What the history keeps of a gesture, stamped with the time of day. */
  datatype GestureRecord = GestureRecord(gesture: string, meaning: string, confidence: real, timestamp: string)

  class GestureLog {
    var gestureHistory: seq<GestureRecord>

    predicate Valid()
      reads this
    {
      |gestureHistory| <= GestureHistoryCap
    }

    constructor()
      ensures Valid() && gestureHistory == []
    {
      gestureHistory := [];
    }

    /** `addToHistory(gesture)` at time of day `timestamp`. */
    method AddToHistory(gesture: Gesture, timestamp: string)
      requires Valid()
      modifies this
      ensures Valid()
      ensures gestureHistory == AddFront(old(gestureHistory),
        GestureRecord(gesture.name, gesture.meaning, gesture.confidence, timestamp), GestureHistoryCap)
      ensures gestureHistory[0].gesture == gesture.name
      ensures gestureHistory[0].meaning == gesture.meaning
      ensures gestureHistory[0].confidence == gesture.confidence
      ensures forall i :: 1 <= i < |gestureHistory| ==> gestureHistory[i] == old(gestureHistory)[i - 1]
      ensures |gestureHistory| == |old(gestureHistory)| ==> |old(gestureHistory)| == GestureHistoryCap
    {
      gestureHistory := [GestureRecord(gesture.name, gesture.meaning, gesture.confidence, timestamp)] + gestureHistory;
      if |gestureHistory| > GestureHistoryCap {
        gestureHistory := gestureHistory[..|gestureHistory| - 1];
      }
    }
  }
}
