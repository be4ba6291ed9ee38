/** The remembered verdicts that the store keeps and the pipeline asks for. */
module Verdicts {
  import opened Bytes

  datatype IpRow = IpRow(verdict: string, reason: string, cveId: string, expires: int)
  datatype FileRow = FileRow(verdict: string, threat: string)

  /** The row of an address, if it has not expired by `now`. */
  function LiveRow(ips: map<string, IpRow>, ip: string, now: int): Option<IpRow> {
    if ip in ips && ips[ip].expires > now then Some(ips[ip]) else None
  }
}
