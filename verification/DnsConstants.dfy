/** Numbers and return codes of the protocol (rr_types.h, dns.h). */
module DnsConstants {
  const T_A := 1
  const T_NS := 2
  const T_MD := 3
  const T_MF := 4
  const T_CNAME := 5
  const T_SOA := 6
  const T_MB := 7
  const T_MG := 8
  const T_MR := 9
  const T_PTR := 12
  const T_MINFO := 14
  const T_MX := 15
  const T_RP := 17
  const T_AFSDB := 18
  const T_RT := 21
  const T_PX := 26
  const T_AAAA := 28
  const T_NXT := 30
  const T_SRV := 33
  const T_NAPTR := 35
  const T_KX := 36
  const T_OPT := 41
  const T_IPSECKEY := 45
  const T_RRSIG := 46
  const T_NSEC := 47

  const DNS_HDR := 12         // sizeof(dns_hdr_t)
  const LENGTH_PREFIX := 2    // dnsmsghdroffset
  const OPT_SIZE := 11        // sizeof_opt_pseudo_rr

  datatype RC =
    | RC_OK | RC_FORMAT | RC_SERVFAIL | RC_NAMEERR | RC_NOTSUPP | RC_REFUSED
    | RC_TRUNC | RC_FATALERR | RC_CACHED | RC_STALE | RC_OTHER
}
