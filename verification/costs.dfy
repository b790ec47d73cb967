/**
 * `calcular_custos_alagoas`: the yearly costs of owning a vehicle in Alagoas,
 * estimated from its FIPE valuation with fixed regional rates.
 */
module RegionalCosts {

  /** IPVA (the state vehicle tax), the estimated insurance premium and the licensing fee. */
  datatype Costs = Costs(ipva: real, seguro: real, licenciamento: real)

  /** The Alagoas IPVA rate, 3%. */
  const IpvaRate: real := 0.03
  /** The estimated insurance rate, 5% of the valuation. */
  const InsuranceRate: real := 0.05
  /** The flat licensing fee, in reais. */
  const LicensingFee: real := 180.00

  /** The three regional costs of a vehicle valued at `valor` reais. */
  function AlagoasCosts(valor: real): (c: Costs)
    ensures valor >= 0.0 ==> 0.0 <= c.ipva <= c.seguro
    ensures 5.0 * c.ipva == 3.0 * c.seguro
    ensures c.licenciamento == 180.0
  {
    Costs(valor * IpvaRate, valor * InsuranceRate, LicensingFee)
  }

  /** The costs are exactly 3% and 5% of the valuation plus the flat fee. */
  lemma CostsArePercentages(valor: real)
    ensures AlagoasCosts(valor) == Costs(valor * 3.0 / 100.0, valor * 5.0 / 100.0, 180.0)
  {
  }

  /** The licensing fee does not depend on the valuation. */
  lemma LicensingIsFlat(a: real, b: real)
    ensures AlagoasCosts(a).licenciamento == AlagoasCosts(b).licenciamento
  {
  }

  /** IPVA and insurance of a sum of valuations are the sums of their IPVA and insurance. */
  lemma CostsAdditive(a: real, b: real)
    ensures AlagoasCosts(a + b).ipva == AlagoasCosts(a).ipva + AlagoasCosts(b).ipva
    ensures AlagoasCosts(a + b).seguro == AlagoasCosts(a).seguro + AlagoasCosts(b).seguro
  {
  }

  /** A vehicle valued at 100000 reais pays 3000 IPVA, 5000 insurance and 180 licensing. */
  lemma ReferenceCosts()
    ensures AlagoasCosts(100000.0) == Costs(3000.0, 5000.0, 180.0)
  {
  }
}
