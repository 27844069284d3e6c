/** `sendToTV` and the top-level run: the calls the program makes on the
    Frame TV client along its only path, the one on which every call succeeds. */
module Session {
  import opened Gallery
  import opened Eviction
  import ImagePath

  /** A call on the TV client, with the arguments the program passes. */
  datatype Call =
    | Connect(host: string)
    | Upload(image: seq<bv8>, fileType: string, matteType: string, matteColor: Option<string>)
    | SetCurrentArt(id: Id)
    | GetAvailableArt
    | DeleteArt(ids: seq<Id>)
    | Close

  /** What the TV answers: the id `upload` assigns to the new art, and the
      list `getAvailableArt` returns. */
  datatype Device = Device(uploadedId: Id, available: seq<ArtItem>)

  /** The parameters of `sendToTV`. */
  datatype Request = Request(
    host: string,
    imagePath: string,
    matteType: string,
    matteColor: Option<string>,
    maxItems: Option<int>)

  /** The parsed command line, restricted to what reaches `sendToTV`. */
  datatype Args = Args(
    host: string,
    matteType: string,
    matteColor: Option<string>,
    maxItemsOnDevice: Option<int>)

  /** The step of the protocol a call belongs to. */
  function Step(c: Call): nat {
    match c
    case Connect(_) => 0
    case Upload(_, _, _, _) => 1
    case SetCurrentArt(_) => 2
    case GetAvailableArt => 3
    case DeleteArt(_) => 4
    case Close => 5
  }

  /** The success path: connect, upload, set the new art current, optionally
      list the gallery and then delete at most once, and close last. Steps
      strictly increase, so no call is made twice, and a deletion always
      directly follows a listing. */
  predicate FollowsProtocol(t: seq<Call>) {
    && |t| >= 4
    && t[0].Connect? && t[1].Upload? && t[2].SetCurrentArt? && t[|t| - 1].Close?
    && (forall i, j | 0 <= i < j < |t| :: Step(t[i]) < Step(t[j]))
    && (forall i | 0 < i < |t| && t[i].DeleteArt? :: t[i - 1].GetAvailableArt?)
  }

  /** `sendToTV`: the trace of calls it makes, given the TV's answers and the
      bytes `readFile` returned for the image. */
  method SendToTV(req: Request, image: seq<bv8>, device: Device) returns (trace: seq<Call>)
    ensures FollowsProtocol(trace)
    ensures trace[0] == Connect(req.host)
    ensures trace[1] == Upload(image, ImagePath.FileType(req.imagePath), req.matteType, req.matteColor)
    ensures trace[2] == SetCurrentArt(device.uploadedId)
    ensures GetAvailableArt in trace <==> EvictionEnabled(req.maxItems)
    ensures forall i | 0 <= i < |trace| && trace[i].DeleteArt? ::
              && EvictionEnabled(req.maxItems)
              && |device.available| > req.maxItems.value
              && trace[i].ids == Ids(Evicted(device.available, req.maxItems.value))
    ensures EvictionEnabled(req.maxItems) && |device.available| > req.maxItems.value ==>
              DeleteArt(Ids(Evicted(device.available, req.maxItems.value))) in trace
    ensures !EvictionEnabled(req.maxItems) ==> |trace| == 4
  {
    var connect := Connect(req.host);
    var upload := Upload(image, ImagePath.FileType(req.imagePath), req.matteType, req.matteColor);
    var setCurrent := SetCurrentArt(device.uploadedId);
    var eviction := GalleryCalls(req.maxItems, device.available);
    trace := [connect, upload, setCurrent] + eviction + [Close];
    TraceShape(connect, upload, setCurrent, eviction);
  }

  /** The guarded eviction block: the calls it makes on the TV, given the
      list `getAvailableArt` returns. */
  method GalleryCalls(maxItems: Option<int>, available: seq<ArtItem>) returns (ev: seq<Call>)
    ensures IsEvictionCalls(ev)
    ensures ev != [] <==> EvictionEnabled(maxItems)
    ensures |ev| == 2 <==> EvictionEnabled(maxItems) && |available| > maxItems.value
    ensures |ev| == 2 ==> ev[1] == DeleteArt(Ids(Evicted(available, maxItems.value)))
  {
    ev := [];
    if EvictionEnabled(maxItems) {
      ev := [GetAvailableArt];
      var ids := DeletionFor(available, maxItems.value);
      if ids.Some? {
        ev := ev + [DeleteArt(ids.value)];
      }
    }
  }

  /** The optional eviction part of the trace: nothing, a listing, or a
      listing followed by one deletion. */
  predicate IsEvictionCalls(ev: seq<Call>) {
    || ev == []
    || ev == [GetAvailableArt]
    || (|ev| == 2 && ev[0] == GetAvailableArt && ev[1].DeleteArt?)
  }

  /** Publishing, then the eviction calls, then closing, follows the protocol. */
  lemma TraceShape(connect: Call, upload: Call, setCurrent: Call, ev: seq<Call>)
    requires connect.Connect? && upload.Upload? && setCurrent.SetCurrentArt?
    requires IsEvictionCalls(ev)
    ensures FollowsProtocol([connect, upload, setCurrent] + ev + [Close])
    ensures |[connect, upload, setCurrent] + ev + [Close]| == 4 + |ev|
    ensures ([connect, upload, setCurrent] + ev + [Close])[0] == connect
    ensures ([connect, upload, setCurrent] + ev + [Close])[1] == upload
    ensures ([connect, upload, setCurrent] + ev + [Close])[2] == setCurrent
    ensures GetAvailableArt in [connect, upload, setCurrent] + ev + [Close] <==> ev != []
    ensures forall i | 0 <= i < |[connect, upload, setCurrent] + ev + [Close]| &&
                       ([connect, upload, setCurrent] + ev + [Close])[i].DeleteArt? ::
              |ev| == 2 && ([connect, upload, setCurrent] + ev + [Close])[i] == ev[1]
    ensures |ev| == 2 ==> ev[1] in [connect, upload, setCurrent] + ev + [Close]
  {
    var t := [connect, upload, setCurrent] + ev + [Close];
    assert t[3 + |ev|] == Close;
    if ev == [] {
      assert t == [connect, upload, setCurrent, Close];
    } else if ev == [GetAvailableArt] {
      assert t == [connect, upload, setCurrent, GetAvailableArt, Close];
    } else {
      assert t == [connect, upload, setCurrent, GetAvailableArt, ev[1], Close];
    }
  }

  /** The program's run: `captureScreenshot` always returns its default path,
      which is then handed to `sendToTV` with the parsed options. */
  method Run(args: Args, image: seq<bv8>, device: Device) returns (trace: seq<Call>)
    ensures FollowsProtocol(trace)
    ensures trace[1] == Upload(image, "png", args.matteType, args.matteColor)
    ensures trace[2] == SetCurrentArt(device.uploadedId)
    ensures trace[0] == Connect(args.host)
    ensures GetAvailableArt in trace <==> EvictionEnabled(args.maxItemsOnDevice)
    ensures forall i | 0 <= i < |trace| && trace[i].DeleteArt? ::
              && EvictionEnabled(args.maxItemsOnDevice)
              && |device.available| > args.maxItemsOnDevice.value
              && trace[i].ids == Ids(Evicted(device.available, args.maxItemsOnDevice.value))
    ensures EvictionEnabled(args.maxItemsOnDevice) && |device.available| > args.maxItemsOnDevice.value ==>
              DeleteArt(Ids(Evicted(device.available, args.maxItemsOnDevice.value))) in trace
    ensures args.maxItemsOnDevice == None ==> |trace| == 4 && GetAvailableArt !in trace
  {
    var imagePath := ImagePath.DefaultScreenshotPath;
    ImagePath.DefaultFileTypeIsPng();
    trace := SendToTV(Request(args.host, imagePath, args.matteType, args.matteColor, args.maxItemsOnDevice), image, device);
  }

  /** `close` is the last call and is made once. */
  lemma ProtocolClosesOnce(t: seq<Call>)
    requires FollowsProtocol(t)
    ensures t[|t| - 1] == Close
    ensures forall i | 0 <= i < |t| - 1 :: t[i] != Close
  {
    forall i | 0 <= i < |t| - 1
      ensures t[i] != Close
    {
      assert Step(t[i]) < Step(t[|t| - 1]);
    }
  }
}
