/** The capacity probe behind `GET /v1/status`. */
module ServerHealth {
  import opened Values

  const OkStatus := "ok"
  const ErrorStatus := "error"
  const DiskFullMessage := "Disk is full"

  /** The version string the service reports. */
  const RestVersion := "0.3.0"

  /** Percentage used when the disk could not be queried. */
  const DiskUnknown := -1

  /** Configured cutoff when the settings file does not override it. */
  const DefaultDiskFullCutoff := 90

  /** Status of the server, filled in field by field on construction.
      `diskPercent` is the percentage of the root file system in use, or
      `None` when querying it failed; `loadavg` is the 1, 5 and 15 minute
      load average. */
  class ServerStatus {
    var status: string
    var message: string
    var pcDiskFull: int
    var load: seq<real>
    var restVersion: string

    constructor (diskPercent: Option<int>, cutoff: int, loadavg: (real, real, real))
      ensures pcDiskFull == if diskPercent.Some? then diskPercent.value else DiskUnknown
      ensures status == ErrorStatus <==> pcDiskFull >= cutoff
      ensures status == OkStatus <==> pcDiskFull < cutoff
      ensures message == if pcDiskFull >= cutoff then DiskFullMessage else ""
      ensures diskPercent.None? && cutoff > DiskUnknown ==> status == OkStatus
      ensures diskPercent.None? && cutoff == DefaultDiskFullCutoff ==> status == OkStatus
      ensures load == [loadavg.0, loadavg.1, loadavg.2]
      ensures restVersion == RestVersion
    {
      status := OkStatus;
      message := "";
      pcDiskFull := 0;
      load := [0.0, 0.0, 0.0];
      restVersion := RestVersion;
      new;
      pcDiskFull := DiskUnknown;
      match diskPercent {
        case Some(pc) => pcDiskFull := pc;
        case None => pcDiskFull := DiskUnknown;
      }
      if pcDiskFull >= cutoff {
        status := ErrorStatus;
        message := DiskFullMessage;
      } else {
        status := OkStatus;
      }
      load := load[0 := loadavg.0];
      load := load[1 := loadavg.1];
      load := load[2 := loadavg.2];
    }
  }
}
