/** Values shared by the two importers: one row of the `hosts` table of a
    recon-ng workspace database, reduced to the three columns both importers
    read (column 0 = host name, column 1 = IP address, column 6 = source module). */
module ReconData {

  datatype Option<+T> = None | Some(value: T)

  /** A row of recon-ng's `hosts` table, as far as the importers look at it. */
  datatype Row = Row(host: string, ipAddress: string, source: string)
}
