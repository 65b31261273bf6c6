/**
 * The records that flow between the stages of the relative-fitness pipeline.
 * Files are modelled as sequences of typed rows; the CSV text form is not.
 */
module Records {

  /**
   * One variant as the VCF reader yields it, already restricted to the
   * samples of one generation: position, reference base, the list of
   * alternate alleles, the reader's SNP flag and the genotype tallies.
   */
  datatype Variant = Variant(
    pos: int,
    ref: string,
    alts: seq<string>,
    isSnp: bool,
    numCalled: nat,
    numHet: nat,
    numHomAlt: nat)

  /** One row `pos,ref,alt,alt_count,total` of a bucket file `tmp.<chrom>.<gen>.csv`. */
  datatype BucketRow = BucketRow(pos: int, ref: string, alt: string, altCount: int, total: int)

  /** One row `Pos,Ref,Alt,RF` of a result file `<chrom>.<pair>.csv`. */
  datatype OutRow = OutRow(pos: int, ref: string, alt: string, rf: real)

  /** A result file: its header line and its rows. */
  datatype Table = Table(header: seq<string>, rows: seq<OutRow>)

  /** The header every result file is written with. */
  const ResultHeader: seq<string> := ["Pos", "Ref", "Alt", "RF"]
}
