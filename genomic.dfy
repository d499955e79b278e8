/** The 4-tuples the scripts compare: chromosome, start, stop and type. */
module Genomic {

  datatype Interval = Interval(chrom: string, start: int, stop: int, kind: string)
}
