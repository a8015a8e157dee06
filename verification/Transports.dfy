module Transports {

  datatype Transport = Tcp | Udp
}
