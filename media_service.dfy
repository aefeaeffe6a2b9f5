/**
 * The media service: where an upload goes (resource type and folder) by
 * its Content-Type, the record kept for it with its ten-day expiry, and the
 * selection of expired records by the cleanup pass. The upload to the
 * media host and the database write are parameters; times are
 * nanoseconds, as Go's time.Duration counts them.
 */
module MediaService {
  import opened Wrappers
  import opened Protocol

  /** One hour, and the ten-day lifetime of an uploaded file. */
  const Second: int := 1_000_000_000
  const Hour: int := 3600 * Second
  const ExpiryDelay: int := 10 * 24 * Hour

  /** The ASCII bytes of "image", "video" and "audio". */
  const ImageBytes: Bytes := [105, 109, 97, 103, 101]
  const VideoBytes: Bytes := [118, 105, 100, 101, 111]
  const AudioBytes: Bytes := [97, 117, 100, 105, 111]

  /** Where an upload is sent: the host's resource type and a folder. */
  datatype Destination = Destination(resourceType: string, folder: string)

  datatype MediaError =
    | NotConfigured            // "Cloudinary not configured"
    | ContentTypeTooShort      // contentType[:5] is out of range, which panics
    | UploadFailed(reason: string)

  /** What the host returns for a stored file. */
  datatype Asset = Asset(secureUrl: string, publicId: string)

  /** The models.Media row kept for an upload; `expiresAt` in nanoseconds. */
  datatype Media = Media(userId: nat, kind: string, url: string, publicId: string, size: int, expiresAt: int)

  datatype UploadResult = UploadResult(url: string, publicId: string, kind: string)

  /**
   * The switch of Upload on the first five bytes of the Content-Type
   * header value (a Go string is its bytes): audio goes to the host's video
   * type, in its own folder; a value shorter than five bytes cannot be
   * sliced.
   */
  function Classify(contentType: Bytes): (r: Result<Destination, MediaError>)
    ensures r.Err? <==> |contentType| < 5
    ensures r.Err? ==> r.error == ContentTypeTooShort
    ensures |contentType| >= 5 && contentType[..5] == ImageBytes ==> r == Ok(Destination("image", "onechat/images"))
    ensures |contentType| >= 5 && contentType[..5] == VideoBytes ==> r == Ok(Destination("video", "onechat/videos"))
    ensures |contentType| >= 5 && contentType[..5] == AudioBytes ==> r == Ok(Destination("video", "onechat/audio"))
    ensures |contentType| >= 5 && contentType[..5] !in {ImageBytes, VideoBytes, AudioBytes} ==>
      r == Ok(Destination("raw", "onechat/documents"))
  {
    if |contentType| < 5 then Err(ContentTypeTooShort)
    else if contentType[..5] == ImageBytes then Ok(Destination("image", "onechat/images"))
    else if contentType[..5] == VideoBytes then Ok(Destination("video", "onechat/videos"))
    else if contentType[..5] == AudioBytes then Ok(Destination("video", "onechat/audio"))
    else Ok(Destination("raw", "onechat/documents"))
  }

  /** Only the first five bytes matter: "image/png" and "imagery" go to the same place. */
  lemma ClassifyReadsOnlyPrefix(a: Bytes, b: Bytes)
    requires |a| >= 5 && |b| >= 5 && a[..5] == b[..5]
    ensures Classify(a) == Classify(b)
  {
  }

  /**
   * A value of four characters whose UTF-8 encoding has five bytes or more
   * ("ab€", the euro sign being three bytes) is sliced without a panic and
   * stored as a document.
   */
  lemma ShortTextLongEncodingIsDocument()
    ensures Classify([97, 98, 0xE2, 0x82, 0xAC]) == Ok(Destination("raw", "onechat/documents"))
  {
    var ct: Bytes := [97, 98, 0xE2, 0x82, 0xAC];
    assert ct[..5] == ct;
    assert ct[0] != ImageBytes[0] && ct[0] != VideoBytes[0] && ct[1] != AudioBytes[1];
  }

  /**
   * The resource type is one the host knows, and the folder tells the four
   * classes apart even where audio and video share a resource type.
   */
  lemma ClassifyDestinations(a: Bytes, b: Bytes)
    requires Classify(a).Ok? && Classify(b).Ok?
    ensures Classify(a).value.resourceType in {"image", "video", "raw"}
    ensures Classify(a).value.folder == Classify(b).value.folder <==> Classify(a) == Classify(b)
    ensures Classify(a).value.folder == "onechat/audio" <==> a[..5] == AudioBytes
  {
  }

  /** The expiry of a file uploaded at `now`. */
  function ExpiresAt(now: int): (t: int)
    ensures t - now == 864000 * Second
  {
    now + ExpiryDelay
  }

  /**
   * Upload: the configuration guard comes first, then the Content-Type,
   * then the host's answer `uploaded`. On success the record handed to the
   * database (whose failure is only logged, so it does not change the
   * answer) and the result share the URL, public id and resource type.
   */
  function Upload(configured: bool, contentType: Bytes, userId: nat, size: int, now: int,
                  uploaded: Result<Asset, string>): (r: Result<(UploadResult, Media), MediaError>)
    ensures !configured ==> r == Err(NotConfigured)
    ensures configured && |contentType| < 5 ==> r == Err(ContentTypeTooShort)
    ensures configured && |contentType| >= 5 && uploaded.Err? ==> r == Err(UploadFailed(uploaded.error))
    ensures r.Ok? <==> configured && Classify(contentType).Ok? && uploaded.Ok?
    ensures r.Ok? ==>
      var (res, rec) := r.value;
      && res.kind == rec.kind == Classify(contentType).value.resourceType
      && res.url == rec.url == uploaded.value.secureUrl
      && res.publicId == rec.publicId == uploaded.value.publicId
      && rec.userId == userId && rec.size == size
      && rec.expiresAt == ExpiresAt(now)
  {
    if !configured then Err(NotConfigured)
    else
      match Classify(contentType)
      case Err(e) => Err(e)
      case Ok(dest) =>
        match uploaded
        case Err(reason) => Err(UploadFailed(reason))
        case Ok(asset) =>
          var rec := Media(userId, dest.resourceType, asset.secureUrl, asset.publicId, size, ExpiresAt(now));
          Ok((UploadResult(asset.secureUrl, asset.publicId, dest.resourceType), rec))
  }

  /** The cleanup query: the records whose expiry is strictly before `now`, in stored order. */
  function SelectExpired(records: seq<Media>, now: int): (r: seq<Media>)
    ensures forall m :: m in r <==> m in records && m.expiresAt < now
    ensures forall m :: multiset(r)[m] == if m.expiresAt < now then multiset(records)[m] else 0
  {
    if records == [] then []
    else
      var rest := SelectExpired(records[1..], now);
      assert records == [records[0]] + records[1..];
      if records[0].expiresAt < now then [records[0]] + rest else rest
  }

  /**
   * A file uploaded at `now` is left alone by every cleanup pass up to and
   * including ten days later, and taken by every pass after that.
   */
  lemma FreshUploadSurvivesTenDays(configured: bool, contentType: Bytes, userId: nat, size: int, now: int,
                                   asset: Asset, later: int)
    requires Upload(configured, contentType, userId, size, now, Ok(asset)).Ok?
    ensures var rec := Upload(configured, contentType, userId, size, now, Ok(asset)).value.1;
      SelectExpired([rec], later) == (if later <= now + ExpiryDelay then [] else [rec])
  {
  }
}
