/**
 * The rows of the MySQL tables the server reads and writes, and the
 * `Database` object holding those tables. A table whose rows the handlers
 * look up by primary key is a `map` on that key; a table whose row order
 * a query exposes is a `seq` in insertion order; a table of bare key pairs is
 * a `set`.
 */
module Tables {
  import opened Wrappers
  import opened Js
  import opened Dates
  import opened Seqs

  /** The six values of `emotion_type`. */
  datatype Emotion = Joy | Sadness | Anger | Worry | Proud | Upset

  /** The `EMOTIONS` array, in its declared order. */
  const Emotions: seq<Emotion> := [Joy, Sadness, Anger, Worry, Proud, Upset]

  lemma EveryEmotionListed(e: Emotion)
    ensures e in Emotions
  {
  }

  /** The position of each emotion in `EMOTIONS`. */
  function EmotionIndex(e: Emotion): (k: nat)
    ensures k < |Emotions| && Emotions[k] == e
  {
    match e
    case Joy => 0
    case Sadness => 1
    case Anger => 2
    case Worry => 3
    case Proud => 4
    case Upset => 5
  }

  /** No emotion is listed twice. */
  lemma EmotionsDistinct()
    ensures Distinct(Emotions)
  {
    forall i, j | 0 <= i < j < |Emotions| ensures Emotions[i] != Emotions[j] {
      assert EmotionIndex(Emotions[i]) == i && EmotionIndex(Emotions[j]) == j;
    }
  }

  function Name(e: Emotion): string {
    match e
    case Joy => "joy"
    case Sadness => "sadness"
    case Anger => "anger"
    case Worry => "worry"
    case Proud => "proud"
    case Upset => "upset"
  }

  /** `EMOTIONS.includes(s)`, giving the emotion named. */
  function ParseEmotion(s: string): (r: Option<Emotion>)
    ensures r.Some? ==> Name(r.value) == s
    ensures r.None? ==> forall e :: Name(e) != s
  {
    if s == "joy" then Some(Joy)
    else if s == "sadness" then Some(Sadness)
    else if s == "anger" then Some(Anger)
    else if s == "worry" then Some(Worry)
    else if s == "proud" then Some(Proud)
    else if s == "upset" then Some(Upset)
    else None
  }

  /** Every emotion's name parses back to it. */
  lemma ParseName(e: Emotion)
    ensures ParseEmotion(Name(e)) == Some(e)
  {
  }

  /** A row of `Records`. */
  datatype Record = Record(
    id: int,
    userId: int,
    title: Option<string>,
    emotion: Emotion,
    expression: Option<string>,
    content: Option<string>,
    img: Option<string>,
    revealAt: Option<Instant>,
    period: Option<int>,
    latitude: Option<real>,
    longitude: Option<real>,
    place: Option<string>,
    visibility: Option<string>,
    createdAt: Instant)

  predicate IsPublic(r: Record) {
    r.visibility == Some("public")
  }

  /** A row of `RecordImages`. */
  datatype RecordImage = RecordImage(id: int, recordId: int, url: string, sortOrder: int)

  /** A row of `Users` (the columns the handlers read). */
  datatype User = User(name: Option<string>, img: Option<string>)

  /** A row of `EmotionCalendar`, keyed by (userId, date). */
  datatype CalendarRow = CalendarRow(emotion: Emotion, expression: Option<string>)

  /** A row of `Emotion_Stats`, keyed by (userId, year_month): one counter per emotion. */
  datatype Counts = Counts(joy: nat, sadness: nat, anger: nat, worry: nat, proud: nat, upset: nat)
  {
    function Get(e: Emotion): nat {
      match e
      case Joy => joy
      case Sadness => sadness
      case Anger => anger
      case Worry => worry
      case Proud => proud
      case Upset => upset
    }

    function Set(e: Emotion, v: nat): (c: Counts)
      ensures c.Get(e) == v && forall x :: x != e ==> c.Get(x) == Get(x)
    {
      match e
      case Joy => this.(joy := v)
      case Sadness => this.(sadness := v)
      case Anger => this.(anger := v)
      case Worry => this.(worry := v)
      case Proud => this.(proud := v)
      case Upset => this.(upset := v)
    }
  }

  /** A fresh `Emotion_Stats` row before its one named column is set: all zero. */
  const ZeroCounts := Counts(0, 0, 0, 0, 0, 0)

  /** A row of `Today_Emotion`, keyed by userId. */
  datatype Snapshot = Snapshot(
    emotion: Option<string>,
    expression: Option<string>,
    latitude: Option<real>,
    longitude: Option<real>,
    updatedAt: Instant)

  /** A row of `UserBleSettings`, keyed by user_id; `enabled` is the TINYINT. */
  datatype BleSetting = BleSetting(enabled: int, lastEnabledAt: Option<Instant>)

  /** A row of `DeviceTokens`; `user_id` is its primary key. */
  datatype DeviceToken = DeviceToken(
    userId: int, tokenHash: string, rotatedAt: Instant, expiresAt: Instant, active: bool)

  /** A row of `RefreshTokens`. */
  datatype RefreshToken = RefreshToken(
    userId: int,
    tokenHash: string,
    deviceId: Option<string>,
    ip: Option<string>,
    userAgent: string,
    expiresAt: Instant,
    revokedAt: Option<Instant>,
    replacedBy: Option<string>)

  /** A row of `BleObservation`. */
  datatype Observation = Observation(reporterId: int, observedHash: string, rssi: Num, seenAt: Instant)

  /** A row of `Notices`. */
  datatype Notice = Notice(
    id: int,
    title: Option<string>,
    content: Option<string>,
    pinned: bool,
    publishAt: Option<Instant>,
    isDeleted: bool,
    createdBy: int)

  /** A row of `RecordComments`. */
  datatype Comment = Comment(id: int, recordId: int, authorId: int, content: string, isDeleted: bool)

  /** Primary keys of a sequence table: no two rows share an id. */
  predicate UniqueIds(records: seq<Record>) {
    forall i, j :: 0 <= i < j < |records| ==> records[i].id != records[j].id
  }

  lemma DistinctIds(records: seq<Record>, a: nat, b: nat)
    requires UniqueIds(records) && a < |records| && b < |records| && a != b
    ensures records[a].id != records[b].id
  {
    if b < a {
      assert records[b].id != records[a].id;
    }
  }

  /** With ids unique, two positions holding the same id are one position. */
  lemma SameIdSameIndex(records: seq<Record>, a: nat, b: nat)
    requires UniqueIds(records) && a < |records| && b < |records|
    ensures a == b || records[a].id != records[b].id
  {
    if a != b {
      DistinctIds(records, a, b);
    }
  }

  /** The database the handlers share: every table the core touches. */
  class Database {
    var users: map<int, User>
    var records: seq<Record>
    var images: seq<RecordImage>
    /** `EmotionCalendar`, keyed by (userId, date). */
    var calendar: map<(int, Date), CalendarRow>
    /** `Emotion_Stats`, keyed by (userId, 'YYYY-MM'). */
    var stats: map<(int, string), Counts>
    /** `Users_Rec`: the (userId, recId) acknowledgments. */
    var acks: set<(int, int)>
    /** `Today_Emotion`, keyed by userId. */
    var snapshots: map<int, Snapshot>
    var bleSettings: map<int, BleSetting>
    /** `DeviceTokens` in insertion order; `user_id` is unique. */
    var deviceTokens: seq<DeviceToken>
    var refreshTokens: seq<RefreshToken>
    var observations: seq<Observation>
    var notices: seq<Notice>
    /** `NoticeReads`: read_at keyed by (notice_id, user_id). */
    var noticeReads: map<(int, int), Instant>
    var comments: seq<Comment>
    /** `CommentReports`: the (comment_id, reporter_id) pairs. */
    var reports: set<(int, int)>

    /** An empty database. */
    constructor ()
      ensures users == map[] && records == [] && images == [] && calendar == map[]
      ensures stats == map[] && acks == {} && snapshots == map[] && bleSettings == map[]
      ensures deviceTokens == [] && refreshTokens == [] && observations == []
      ensures notices == [] && noticeReads == map[] && comments == [] && reports == {}
    {
      users, records, images, calendar := map[], [], [], map[];
      stats, acks, snapshots, bleSettings := map[], {}, map[], map[];
      deviceTokens, refreshTokens, observations := [], [], [];
      notices, noticeReads, comments, reports := [], map[], [], {};
    }
  }
}
