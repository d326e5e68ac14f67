/** When the user wants an address, and what that means for the frames (packet_plugin_rjv3_priv.h and .c). */
module Dhcp {
  datatype DhcpType = DhcpNone | DoubleAuth | AfterAuth | BeforeAuth

  /** rjv3_should_fill_dhcp_prop */
  predicate ShouldFill(dhcpType: DhcpType, succCount: int) {
    dhcpType == BeforeAuth || (dhcpType == DoubleAuth && succCount >= 2)
  }
}
