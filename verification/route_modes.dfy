/** How a client's traffic is routed by default. */
module RouteModes {

  datatype RouteMode = Smart | BrowsingWarp | LowLatencyDirect
}
