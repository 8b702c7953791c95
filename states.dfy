/** The in-memory lifecycle states of tenants and timelines. */
module States {

  /** A state of a tenant in the page server's memory. */
  datatype TenantState =
    | Loading    // being loaded from local disk
    | Attaching  // being downloaded from cloud storage
    | Active     // fully operational
    | Stopping   // being detached, or the server is shutting down
    | Broken     // failed to be activated; unusable
  {
    /** True exactly while the tenant's data is still being fetched. */
    function HasInProgressDownloads(): (r: bool)
      ensures r <==> (Loading? || Attaching?)
      ensures !r <==> (Active? || Stopping? || Broken?)
    {
      match this
      case Loading => true
      case Attaching => true
      case Active => false
      case Stopping => false
      case Broken => false
    }
  }

  /** A state of a timeline in the page server's memory; it has no behaviour of its own. */
  datatype TimelineState =
    | Active     // fully operational
    | Suspended  // not ready, may become Active again automatically
    | Stopping   // not ready, only a management call can reactivate it
    | Broken     // failed to be activated; unusable
}
