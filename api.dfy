/** The calls the client makes to the fitness service's REST API, and the
    service itself as an oracle. The reply to a call may depend on every call
    made before it in the same run; an oracle is handed that history with the
    current call last. */
module Api {
  import opened Base

  /** Optional arguments of the create-activity endpoint. */
  datatype CreateActivityOpts = CreateActivityOpts(
    description: Option<string>,
    distance: Option<real>,
    trainer: Option<int>,
    commute: Option<int>)

  /** The body of an update-activity request. */
  datatype UpdatableActivityBody = UpdatableActivityBody(
    commute: bool,
    trainer: bool,
    name: string,
    activityType: string)

  /** Arguments of the create-upload endpoint; the opened file is named by its path. */
  datatype CreateUploadOpts = CreateUploadOpts(
    name: string,
    activityType: string,
    dataType: string,
    file: string,
    externalId: Option<string>,
    description: Option<string>,
    trainer: Option<int>,
    commute: Option<int>)

  /** Arguments of the list-athlete-activities endpoint. */
  datatype ListOpts = ListOpts(
    page: int,
    perPage: int,
    before: Option<int>,
    after: Option<int>)

  /** The status of an upload as the service reports it. */
  datatype Upload = Upload(id: int, error: string, activityId: int)

  datatype Call =
    | CreateActivity(name: string, activityType: string, start: Time, duration: int, opts: CreateActivityOpts)
    | UpdateActivityById(id: int, body: UpdatableActivityBody)
    | CreateUpload(uploadOpts: CreateUploadOpts)
    | GetUploadById(uploadId: int)
    | GetLoggedInAthleteActivities(listOpts: ListOpts)
    | ListActivities(page: int, perPage: int)
    | UpdatePrivate(activityId: int, private: bool)

  /** The service. `activities` answers the calls that return an activity
      (create, update) with that activity's ID; `uploads` answers the calls
      that return an upload status. */
  datatype Remote = Remote(
    activities: seq<Call> -> Response<int>,
    uploads: seq<Call> -> Response<Upload>)

  /** The optional arguments create.go and uploadmanual.go attach to a new
      activity: each one only when it carries information. */
  function CreateActivityOptions(description: string, distance: real, trainer: bool, commute: bool): (o: CreateActivityOpts)
    ensures o.description == (if description != "" then Some(description) else None)
    ensures o.distance == (if distance != 0.0 then Some(distance) else None)
    ensures o.trainer == (if trainer then Some(1) else None)
    ensures o.commute == (if commute then Some(1) else None)
  {
    var o := CreateActivityOpts(None, None, None, None);
    var o := if description != "" then o.(description := Some(description)) else o;
    var o := if distance != 0.0 then o.(distance := Some(distance)) else o;
    var o := if trainer then o.(trainer := Some(1)) else o;
    if commute then o.(commute := Some(1)) else o
  }
}
