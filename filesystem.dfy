/** The files the lifecycle code touches, as a map from path to contents and
    modification time, and the two operations that change it:
    downloadDatabase (main.go) and os.Rename. The network transfer inside
    downloadDatabase is not modelled: its outcome is a parameter. */
module FileSystem {
  import opened Wrappers
  import opened Clock
  import opened Net

  datatype FileInfo = FileInfo(data: seq<Byte>, modTime: Time)

  type Files = map<string, FileInfo>

  /** How one run of downloadDatabase goes: creating the destination fails;
      or the GET fails; or the server answers with `status` and `body`, of
      which io.Copy writes the first `copied` bytes before it stops
      (`copied >= |body|` means the copy completed). */
  datatype DownloadOutcome =
    | CreateFails
    | GetFails
    | Responds(status: int, body: seq<Byte>, copied: nat)

  datatype DownloadError = CreateError | GetError | BadStatus(status: int) | CopyError

  /** downloadDatabase(url, dest): create or truncate `dest`, issue the GET,
      reject any status but 200, then copy the body. A failure after the
      create leaves an empty or partial file behind. */
  function Download(files: Files, dest: string, now: Time, o: DownloadOutcome): (r: (Files, Option<DownloadError>))
    ensures r.0 - {dest} == files - {dest}
    ensures r.1.None? <==> o.Responds? && o.status == 200 && o.copied >= |o.body|
    ensures r.1.None? ==> dest in r.0 && r.0[dest] == FileInfo(o.body, now)
    ensures o.CreateFails? ==> r.0 == files
    ensures !o.CreateFails? ==> dest in r.0 && r.0[dest].modTime == now
    ensures !o.CreateFails? && r.1.Some? ==>
              r.0[dest].data == [] || (o.Responds? && o.status == 200 && r.0[dest].data < o.body)
  {
    match o
    case CreateFails => (files, Some(CreateError))
    case GetFails => (files[dest := FileInfo([], now)], Some(GetError))
    case Responds(status, body, copied) =>
      if status != 200 then (files[dest := FileInfo([], now)], Some(BadStatus(status)))
      else if copied < |body| then (files[dest := FileInfo(body[..copied], now)], Some(CopyError))
      else (files[dest := FileInfo(body, now)], None)
  }

  /** os.Rename(from, to): moves the file over `to` atomically. It fails when
      `from` is missing, and also whenever `succeeds` is false (permissions,
      another device: causes outside the model). */
  function Rename(files: Files, from: string, to: string, succeeds: bool): (r: (Files, bool))
    ensures r.1 <==> succeeds && from in files
    ensures !r.1 ==> r.0 == files
    ensures r.1 && from != to ==> from !in r.0 && to in r.0 && r.0[to] == files[from]
    ensures r.0 - {from, to} == files - {from, to}
  {
    if succeeds && from in files then ((files - {from})[to := files[from]], true) else (files, false)
  }
}
