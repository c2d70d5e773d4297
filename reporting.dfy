/** writepump_reporting.js: the counters a write pump keeps for its periodic
    throughput report, and the time gate of that report. The clock is a
    parameter (`now`, in milliseconds); the logged averages are not part of
    this model. */
module Reporting {

  /** The report is due once `interval` milliseconds have passed since the
      last one. */
  predicate ReportDue(now: int, lastReport: int, interval: int) {
    now - lastReport >= interval
  }

  class WritePumpReporting {
    var startTimeMs: int
    var lastAvgReportTime: int
    var totalItemsWritten: nat
    var totalWriteCycles: nat
    const reportIntervalMs: int

    /** The constructor, which ends by calling `Reset`. */
    constructor (reportIntervalMs: int, now: int)
      ensures this.reportIntervalMs == reportIntervalMs
      ensures startTimeMs == now && lastAvgReportTime == now
      ensures totalItemsWritten == 0 && totalWriteCycles == 0
    {
      this.reportIntervalMs := reportIntervalMs;
      startTimeMs := now;
      lastAvgReportTime := now;
      totalItemsWritten := 0;
      totalWriteCycles := 0;
    }

    /** Both counters back to 0, both timestamps to now. */
    method Reset(now: int)
      modifies this
      ensures startTimeMs == now && lastAvgReportTime == now
      ensures totalItemsWritten == 0 && totalWriteCycles == 0
    {
      startTimeMs := now;
      lastAvgReportTime := now;
      totalItemsWritten := 0;
      totalWriteCycles := 0;
    }

    /** One more write cycle; nothing else changes. */
    method RegisterWriteCycle()
      modifies this
      ensures totalWriteCycles == old(totalWriteCycles) + 1
      ensures totalItemsWritten == old(totalItemsWritten)
      ensures startTimeMs == old(startTimeMs) && lastAvgReportTime == old(lastAvgReportTime)
    {
      totalWriteCycles := totalWriteCycles + 1;
    }

    /** `n` more items written; nothing else changes. */
    method RegisterWrites(n: nat)
      modifies this
      ensures totalItemsWritten == old(totalItemsWritten) + n
      ensures totalWriteCycles == old(totalWriteCycles)
      ensures startTimeMs == old(startTimeMs) && lastAvgReportTime == old(lastAvgReportTime)
    {
      totalItemsWritten := totalItemsWritten + n;
    }

    /** `LogWriteReport`: before the interval has passed nothing happens;
        after it, the report is logged and its time recorded. The counters
        are never reset by a report. */
    method LogWriteReport(now: int) returns (reported: bool)
      modifies this
      ensures reported <==> ReportDue(now, old(lastAvgReportTime), reportIntervalMs)
      ensures lastAvgReportTime == if reported then now else old(lastAvgReportTime)
      ensures totalItemsWritten == old(totalItemsWritten) && totalWriteCycles == old(totalWriteCycles)
      ensures startTimeMs == old(startTimeMs)
    {
      if now - lastAvgReportTime < reportIntervalMs {
        return false;
      }
      lastAvgReportTime := now;
      reported := true;
    }
  }
}
