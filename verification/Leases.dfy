/** What the registry holds and nodes hand around (pkg/lease/lease.go): a lease and its attributes. */
module Leases {
  import opened Ip4

  datatype Net6 = Net6(ip: nat, len: nat)

  datatype Attrs = Attrs(publicIP: Addr, backendType: string, data: string)

  datatype Lease = Lease(enableIPv4: bool, enableIPv6: bool, subnet: Net, subnet6: Net6, attrs: Attrs)
}
