TestResult.DisplayName,TestResult.Outcome,TestResult.Duration,TestResult.ResourceCount,RandomSeed
Events.FireMultiset (correctness),Passed,00:00:00.1647351,89905,1
